/** The vote-count report: every candidate, ordered by tally from highest to
    lowest, each shown as its party and its tally. The ordering is the
    database's; it is specified here by an insertion sort. */
module Report {
  import opened Records

  /** A candidate document as a query returns it, its id included. */
  datatype Doc = Doc(id: CandidateId, candidate: Candidate)

  /** One line of the report. */
  datatype VoteRecord = VoteRecord(party: string, count: int)

  function VotesOf(d: Doc): int {
    d.candidate.voteCount
  }

  function Line(d: Doc): VoteRecord {
    VoteRecord(d.candidate.party, d.candidate.voteCount)
  }

  function IdOf(d: Doc): CandidateId {
    d.id
  }

  ghost predicate SortedByVotes(s: seq<Doc>) {
    forall i, j :: 0 <= i < j < |s| ==> VotesOf(s[i]) >= VotesOf(s[j])
  }

  ghost predicate CountsDescending(r: seq<VoteRecord>) {
    forall i, j :: 0 <= i < j < |r| ==> r[i].count >= r[j].count
  }

  /** `f` applied to each document, in order. */
  function MapDocs<X>(f: Doc -> X, s: seq<Doc>): (r: seq<X>)
    ensures |r| == |s|
    ensures forall i :: 0 <= i < |s| ==> r[i] == f(s[i])
  {
    if s == [] then [] else [f(s[0])] + MapDocs(f, s[1..])
  }

  /** Appending a document appends its reading. */
  lemma {:induction false} MapAppend<X>(f: Doc -> X, s: seq<Doc>, d: Doc)
    ensures MapDocs(f, s + [d]) == MapDocs(f, s) + [f(d)]
  {
    if s != [] {
      assert (s + [d])[1..] == s[1..] + [d];
      MapAppend(f, s[1..], d);
    }
  }

  /** Place `d` in a list already ordered by tally, ahead of every document
      whose tally it does not fall below. */
  function Insert(d: Doc, s: seq<Doc>): (r: seq<Doc>)
    requires SortedByVotes(s)
    ensures |r| == |s| + 1
    ensures SortedByVotes(r)
    ensures multiset(r) == multiset(s) + multiset{d}
  {
    if s == [] || VotesOf(d) >= VotesOf(s[0]) then [d] + s
    else
      var rest := Insert(d, s[1..]);
      assert s == [s[0]] + s[1..];
      BoundedByHead(d, s, rest);
      [s[0]] + rest
  }

  /** Every element of `rest`, a rearrangement of the tail of `s` and a `d`
      that falls below the head of `s`, has a tally no higher than that head. */
  lemma BoundedByHead(d: Doc, s: seq<Doc>, rest: seq<Doc>)
    requires SortedByVotes(s) && s != [] && VotesOf(d) < VotesOf(s[0])
    requires multiset(rest) == multiset(s[1..]) + multiset{d}
    ensures forall k :: 0 <= k < |rest| ==> VotesOf(rest[k]) <= VotesOf(s[0])
  {
    forall k | 0 <= k < |rest|
      ensures VotesOf(rest[k]) <= VotesOf(s[0])
    {
      var x := rest[k];
      assert x in multiset(rest);
      if x != d {
        assert x in multiset(s[1..]);
        var j :| 0 <= j < |s[1..]| && s[1..][j] == x;
        assert s[j + 1] == x;
      }
    }
  }

  /** The documents ordered by tally, highest first: the order of
      `sort({voteCount: 'desc'})`. */
  function SortByVotes(s: seq<Doc>): (r: seq<Doc>)
    ensures |r| == |s|
    ensures SortedByVotes(r)
    ensures multiset(r) == multiset(s)
  {
    if s == [] then []
    else
      assert s == [s[0]] + s[1..];
      Insert(s[0], SortByVotes(s[1..]))
  }

  /** Whatever is read off each document, inserting `d` adds the reading of
      `d` and keeps every other reading. */
  lemma {:induction false} MapInsert<X>(f: Doc -> X, d: Doc, s: seq<Doc>)
    requires SortedByVotes(s)
    ensures multiset(MapDocs(f, Insert(d, s))) == multiset(MapDocs(f, s)) + multiset{f(d)}
  {
    if s == [] || VotesOf(d) >= VotesOf(s[0]) {
      assert ([d] + s)[1..] == s;
    } else {
      MapInsert(f, d, s[1..]);
      var rest := Insert(d, s[1..]);
      assert ([s[0]] + rest)[1..] == rest;
    }
  }

  /** Sorting the documents permutes whatever is read off them. */
  lemma {:induction false} MapSort<X>(f: Doc -> X, s: seq<Doc>)
    ensures multiset(MapDocs(f, SortByVotes(s))) == multiset(MapDocs(f, s))
  {
    if s != [] {
      MapSort(f, s[1..]);
      MapInsert(f, s[0], SortByVotes(s[1..]));
    }
  }

  /** The report for the documents a query returned: one line per document,
      holding its party and tally, ordered by tally from highest to lowest. */
  function Results(docs: seq<Doc>): (r: seq<VoteRecord>)
    ensures |r| == |docs|
    ensures CountsDescending(r)
    ensures multiset(r) == multiset(MapDocs(Line, docs))
  {
    MapSort(Line, docs);
    MapDocs(Line, SortByVotes(docs))
  }
}
