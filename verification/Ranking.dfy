/** Lexical retrieval: from library output to ranked candidates, and from native ranks to mapped scores.

The library itself is not modelled: whatever it answers is inspected, resolved against the blocks of
the request, ordered and cut here.
*/
module Ranking {
  import opened Options
  import opened Results
  import opened Utf16
  import opened Sorting

  // ---------- the corpus of one request ----------

  /** A property of an untrusted object: a value of the wanted type, something else, or unreadable. */
  datatype Property<T> = Value(value: T) | OtherValue | Unreadable

  /** A request block; `ref` tells one object from another. */
  datatype Block = Block(ref: nat, id: Property<Text>, content: Property<Text>)

  datatype Document = Document(id: Text, content: Text)

  datatype Failure =
    | InvalidRequest
    | DuplicateBlock(id: Text)
    | SearchFailed
    | UnknownResult
    | InvalidScore(id: Text)

  datatype Corpus = Corpus(documents: seq<Document>, byId: map<Text, Block>)

  /** The identifier of a block, empty where there is none to read. */
  function IdOf(b: Block): Text { if b.id.Value? then b.id.value else [] }

  function ContentOf(b: Block): Text { if b.content.Value? then b.content.value else [] }

  predicate IsReadable(b: Block) { IdOf(b) != [] && b.content.Value? }

  predicate Repeats(blocks: seq<Block>, i: nat)
    requires i < |blocks|
  {
    exists j :: 0 <= j < i && IdOf(blocks[j]) == IdOf(blocks[i])
  }

  /** Why the block at position `i` is refused. */
  function Problem(blocks: seq<Block>, i: nat): Option<Failure>
    requires i < |blocks|
  {
    if !IsReadable(blocks[i]) then Some(InvalidRequest)
    else if Repeats(blocks, i) then Some(DuplicateBlock(IdOf(blocks[i])))
    else None
  }

  /** Every one of the first `n` blocks can be taken. */
  ghost predicate Acceptable(blocks: seq<Block>, n: nat)
    requires n <= |blocks|
  {
    forall i: nat :: i < n ==> Problem(blocks, i).None?
  }

  ghost predicate FirstProblem(blocks: seq<Block>, e: Failure) {
    exists i: nat :: i < |blocks| && Problem(blocks, i) == Some(e) && Acceptable(blocks, i)
  }

  function DocumentsTo(blocks: seq<Block>, n: nat): (ds: seq<Document>)
    requires n <= |blocks|
  {
    seq(n, i requires 0 <= i < n => Document(IdOf(blocks[i]), ContentOf(blocks[i])))
  }

  function ByIdTo(blocks: seq<Block>, n: nat): map<Text, Block>
    requires n <= |blocks|
  {
    if n == 0 then map[] else ByIdTo(blocks, n - 1)[IdOf(blocks[n - 1]) := blocks[n - 1]]
  }

  function CorpusOf(blocks: seq<Block>): Corpus { Corpus(DocumentsTo(blocks, |blocks|), ByIdTo(blocks, |blocks|)) }

  /** Every identifier finds a block that carries it; without repetitions it finds the only one. */
  lemma {:induction false} ByIdFacts(blocks: seq<Block>, n: nat)
    requires n <= |blocks|
    ensures forall id :: id in ByIdTo(blocks, n) <==> exists i :: 0 <= i < n && IdOf(blocks[i]) == id
    ensures forall id :: id in ByIdTo(blocks, n) ==> ByIdTo(blocks, n)[id] in blocks && IdOf(ByIdTo(blocks, n)[id]) == id
    ensures Acceptable(blocks, n) ==> forall i :: 0 <= i < n ==> ByIdTo(blocks, n)[IdOf(blocks[i])] == blocks[i]
  {
    if n > 0 {
      ByIdFacts(blocks, n - 1);
      if Acceptable(blocks, n) {
        assert Problem(blocks, n - 1).None?;
        forall i | 0 <= i < n - 1 ensures IdOf(blocks[i]) != IdOf(blocks[n - 1]) { }
      }
    }
  }

  /** Indexes a request: every block once, or the failure of the first block that cannot be taken. */
  method DocumentsOf(blocks: seq<Block>) returns (corpus: Result<Corpus, Failure>)
    ensures corpus.Ok? <==> Acceptable(blocks, |blocks|)
    ensures corpus.Ok? ==> corpus.value == CorpusOf(blocks)
    ensures corpus.Err? ==> FirstProblem(blocks, corpus.error)
  {
    var byId: map<Text, Block> := map[];
    var documents := [];
    for i := 0 to |blocks|
      invariant Acceptable(blocks, i)
      invariant documents == DocumentsTo(blocks, i) && byId == ByIdTo(blocks, i)
    {
      var b := blocks[i];
      if !b.id.Value? || b.id.value == [] || !b.content.Value? {
        assert Problem(blocks, i) == Some(InvalidRequest);
        return Err(InvalidRequest);
      }
      ByIdFacts(blocks, i);
      if b.id.value in byId {
        assert Problem(blocks, i) == Some(DuplicateBlock(b.id.value));
        return Err(DuplicateBlock(b.id.value));
      }
      assert Problem(blocks, i).None?;
      byId := byId[b.id.value := b];
      documents := documents + [Document(b.id.value, b.content.value)];
    }
    return Ok(Corpus(documents, byId));
  }

  /** A block that can be taken has an identifier of its own and a content. */
  ghost predicate IsTaken(blocks: seq<Block>, i: nat)
    requires i < |blocks|
  {
    && blocks[i].id.Value? && blocks[i].id.value != [] && blocks[i].content.Value?
    && forall j :: 0 <= j < i ==> !(blocks[j].id.Value? && blocks[j].id.value == blocks[i].id.value)
  }

  /** Block `i` is the first that cannot be taken: its identifier or content is not readable text, or else its
  identifier is repeated. */
  ghost predicate IsFirstRefused(blocks: seq<Block>, i: nat, e: Failure) {
    && i < |blocks| && !IsTaken(blocks, i) && (forall j: nat :: j < i ==> IsTaken(blocks, j))
    && e == if blocks[i].id.Value? && blocks[i].id.value != [] && blocks[i].content.Value? then DuplicateBlock(blocks[i].id.value)
            else InvalidRequest
  }

  /** A request is refused for its first block that cannot be taken. */
  lemma FirstProblemIs(blocks: seq<Block>, e: Failure)
    ensures FirstProblem(blocks, e) <==> exists i: nat :: IsFirstRefused(blocks, i, e)
  {
    forall i: nat | i < |blocks| ensures Problem(blocks, i).None? <==> IsTaken(blocks, i) { TakenIff(blocks, i); }
    if i: nat :| i < |blocks| && Problem(blocks, i) == Some(e) && Acceptable(blocks, i) { assert IsFirstRefused(blocks, i, e); }
    forall i: nat | IsFirstRefused(blocks, i, e) ensures FirstProblem(blocks, e) { assert Problem(blocks, i) == Some(e); }
  }

  lemma TakenIff(blocks: seq<Block>, i: nat)
    requires i < |blocks|
    ensures Problem(blocks, i).None? <==> IsTaken(blocks, i)
  {
    if IsReadable(blocks[i]) {
      if Repeats(blocks, i) {
        var j :| 0 <= j < i && IdOf(blocks[j]) == IdOf(blocks[i]);
        assert blocks[j].id.Value? && blocks[j].id.value == blocks[i].id.value;
      } else {
        forall j | 0 <= j < i ensures !(blocks[j].id.Value? && blocks[j].id.value == blocks[i].id.value) {
          assert IdOf(blocks[j]) != IdOf(blocks[i]);
        }
      }
    }
  }

  // ---------- resolving library output ----------

  datatype Number = Finite(r: real) | NotFinite

  /** One entry of the library's answer, as inspection found it. */
  datatype RawResult = RawResult(id: Property<Text>, score: Property<Number>)

  datatype Resolved = Resolved(id: Text, score: real, block: Block)

  function ResolveOne(raw: RawResult, byId: map<Text, Block>): Result<Resolved, Failure> {
    if raw.id.Unreadable? then Err(SearchFailed)
    else if !raw.id.Value? || raw.id.value == [] || raw.id.value !in byId then Err(UnknownResult)
    else if !raw.score.Value? || !raw.score.value.Finite? || raw.score.value.r <= 0.0 then Err(InvalidScore(raw.id.value))
    else Ok(Resolved(raw.id.value, raw.score.value.r, byId[raw.id.value]))
  }

  function ResolveAll(raw: seq<RawResult>, byId: map<Text, Block>): Result<seq<Resolved>, Failure> {
    if raw == [] then Ok([])
    else
      var first :- ResolveOne(raw[0], byId);
      var rest :- ResolveAll(raw[1..], byId);
      Ok([first] + rest)
  }

  /** A resolved result names a block of the request and carries that very block. */
  ghost predicate FromCorpus(r: Resolved, byId: map<Text, Block>) {
    r.id in byId && r.block == byId[r.id] && r.score > 0.0
  }

  lemma {:induction false} ResolvedAreFromCorpus(raw: seq<RawResult>, byId: map<Text, Block>)
    requires ResolveAll(raw, byId).Ok?
    ensures var rs := ResolveAll(raw, byId).value;
      |rs| == |raw| && forall i :: 0 <= i < |rs| ==> FromCorpus(rs[i], byId) && Ok(rs[i]) == ResolveOne(raw[i], byId)
  {
    if raw != [] { ResolvedAreFromCorpus(raw[1..], byId); }
  }

  // ---------- ranking ----------

  /** Higher scores first, ties by identifier. */
  predicate Before(a: Resolved, b: Resolved) {
    a.score > b.score || (a.score == b.score && AtMost(a.id, b.id))
  }

  datatype Contract = NativeContract | MappedContract | OtherContract

  /** `contract` stands for provider, version and score semantics together. */
  datatype Retrieval = Retrieval(contract: Contract, rank: Option<int>, score: Option<Number>)

  datatype Candidate = Candidate(block: Block, retrieval: Option<Retrieval>)

  function Wrapped(r: Resolved, rank: int): Candidate {
    Candidate(r.block, Some(Retrieval(NativeContract, Some(rank), Some(Finite(r.score)))))
  }

  function Cut(rs: seq<Resolved>, max: nat): seq<Resolved> { if |rs| <= max then rs else rs[..max] }

  function Wrap(rs: seq<Resolved>, max: nat): (cs: seq<Candidate>) {
    var kept := Cut(Sort(Before, rs), max);
    seq(|kept|, i requires 0 <= i < |kept| => Wrapped(kept[i], i))
  }

  lemma BeforeIsPreorder()
    ensures TotalPreorder(Before)
  {
    AtMostIsTotalOrder();
  }

  /** Within one corpus only equal results tie: the identifier decides the block. */
  lemma ResultsUntied(rs: seq<Resolved>, byId: map<Text, Block>)
    requires forall r :: r in rs ==> FromCorpus(r, byId)
    ensures Untied(Before, rs)
  {
    AtMostIsTotalOrder();
  }

  lemma {:induction false} ResolveConcat(a: seq<RawResult>, b: seq<RawResult>, byId: map<Text, Block>)
    ensures ResolveAll(a + b, byId).Ok? <==> ResolveAll(a, byId).Ok? && ResolveAll(b, byId).Ok?
    ensures ResolveAll(a + b, byId).Ok? ==>
      ResolveAll(a + b, byId).value == ResolveAll(a, byId).value + ResolveAll(b, byId).value
  {
    if a == [] {
      assert a + b == b;
    } else {
      ResolveConcat(a[1..], b, byId);
      assert (a + b)[0] == a[0] && (a + b)[1..] == a[1..] + b;
    }
  }

  lemma {:induction false} ResolvePermutes(a: seq<RawResult>, b: seq<RawResult>, byId: map<Text, Block>)
    requires multiset(a) == multiset(b) && ResolveAll(a, byId).Ok?
    ensures ResolveAll(b, byId).Ok?
    ensures multiset(ResolveAll(a, byId).value) == multiset(ResolveAll(b, byId).value)
    decreases |a|
  {
    SameElements(a, b);
    if a != [] {
      assert a[0] in a;
      var k :| 0 <= k < |b| && b[k] == a[0];
      var front, back := b[..k], b[k + 1..];
      assert a == [a[0]] + a[1..];
      assert b == front + ([b[k]] + back);
      assert multiset(a[1..]) == multiset(a) - multiset{a[0]};
      assert multiset(front + back) == multiset(b) - multiset{b[k]};
      ResolvePermutes(a[1..], front + back, byId);
      ResolveConcat(front, back, byId);
      ResolveConcat(front, [b[k]] + back, byId);
      PermutedStep(ResolveAll(a, byId).value, ResolveAll(a[1..], byId).value, ResolveAll(front, byId).value, ResolveAll(back, byId).value);
    }
  }

  lemma PermutedStep(all: seq<Resolved>, tail: seq<Resolved>, front: seq<Resolved>, back: seq<Resolved>)
    requires all != [] && all[1..] == tail && multiset(tail) == multiset(front + back)
    ensures multiset(all) == multiset(front + ([all[0]] + back))
  {
    assert all == [all[0]] + tail;
  }

  // ---------- what the ranking promises ----------

  /** The candidates for an answer of the library. */
  function Rank(raw: seq<RawResult>, byId: map<Text, Block>, max: nat): Result<seq<Candidate>, Failure> {
    var rs :- ResolveAll(raw, byId);
    Ok(Wrap(rs, max))
  }

  /** The order in which the library lists its results does not matter: every permutation gives the
  same candidates, or fails as well. */
  lemma RankOrderIndependent(a: seq<RawResult>, b: seq<RawResult>, byId: map<Text, Block>, max: nat)
    requires multiset(a) == multiset(b) && Rank(a, byId, max).Ok?
    ensures Rank(a, byId, max) == Rank(b, byId, max)
  {
    var rs := ResolveAll(a, byId).value;
    ResolvePermutes(a, b, byId);
    ResolvedAreFromCorpus(a, byId);
    forall r | r in rs ensures FromCorpus(r, byId) { var i :| 0 <= i < |rs| && rs[i] == r; }
    ResultsUntied(rs, byId);
    BeforeIsPreorder();
    SortOrderIndependent(Before, rs, ResolveAll(b, byId).value);
  }

  /** A smaller bound gives a prefix of a larger one. */
  lemma RankPrefixStable(raw: seq<RawResult>, byId: map<Text, Block>, small: nat, large: nat)
    requires small <= large && Rank(raw, byId, large).Ok?
    ensures Rank(raw, byId, small).Ok?
    ensures var all := Rank(raw, byId, large).value;
      Rank(raw, byId, small).value == all[..if |all| <= small then |all| else small]
  {
    var sorted := Sort(Before, ResolveAll(raw, byId).value);
    var few, many := Cut(sorted, small), Cut(sorted, large);
    assert forall i :: 0 <= i < |few| ==> few[i] == many[i];
  }

  /** What stays above a cut, and what falls below it. */
  lemma CutSplits(rs: seq<Resolved>, byId: map<Text, Block>, max: nat) returns (rest: seq<Resolved>, kept: seq<Resolved>)
    requires forall i :: 0 <= i < |rs| ==> FromCorpus(rs[i], byId)
    ensures kept == Cut(Sort(Before, rs), max) && multiset(kept + rest) == multiset(rs)
    ensures |kept| == (if |rs| < max then |rs| else max) && SortedBy(Before, kept)
    ensures forall i, j :: 0 <= i < |kept| && 0 <= j < |rest| ==> Before(kept[i], rest[j])
    ensures forall i :: 0 <= i < |kept| ==> FromCorpus(kept[i], byId)
  {
    var sorted := Sort(Before, rs);
    BeforeIsPreorder();
    SortSorts(Before, rs);
    SortPermutes(Before, rs);
    SameElements(sorted, rs);
    kept := Cut(sorted, max);
    rest := sorted[|kept|..];
    CutOfSorted(sorted, max);
    forall i | 0 <= i < |kept| ensures FromCorpus(kept[i], byId) {
      assert kept[i] == sorted[i];
      FoundInCorpus(rs, byId, kept[i]);
    }
  }

  lemma CutOfSorted(sorted: seq<Resolved>, max: nat)
    requires SortedBy(Before, sorted)
    ensures var kept := Cut(sorted, max); var rest := sorted[|kept|..];
      && kept + rest == sorted && |kept| == (if |sorted| < max then |sorted| else max) && SortedBy(Before, kept)
      && forall i, j :: 0 <= i < |kept| && 0 <= j < |rest| ==> Before(kept[i], rest[j])
  {
    var kept := Cut(sorted, max);
    var rest := sorted[|kept|..];
    forall i, j | 0 <= i < |kept| && 0 <= j < |rest| ensures Before(kept[i], rest[j]) {
      assert kept[i] == sorted[i] && rest[j] == sorted[|kept| + j];
    }
  }

  lemma FoundInCorpus(rs: seq<Resolved>, byId: map<Text, Block>, r: Resolved)
    requires r in rs && forall i :: 0 <= i < |rs| ==> FromCorpus(rs[i], byId)
    ensures FromCorpus(r, byId)
  {
  }

  lemma WrapFacts(rs: seq<Resolved>, kept: seq<Resolved>, max: nat)
    requires kept == Cut(Sort(Before, rs), max)
    ensures |Wrap(rs, max)| == |kept| && forall i :: 0 <= i < |kept| ==> Wrap(rs, max)[i] == Wrapped(kept[i], i)
  {
  }

  /** What is returned and what is cut off: the results in descending order of score, ties in order of
  their identifiers, each with its position as its rank and the very block of the request, and nothing
  that was cut belongs before anything that was kept. */
  lemma RankIsBest(raw: seq<RawResult>, byId: map<Text, Block>, max: nat) returns (rest: seq<Resolved>, kept: seq<Resolved>)
    requires Rank(raw, byId, max).Ok?
    ensures multiset(kept + rest) == multiset(ResolveAll(raw, byId).value)
    ensures |kept| == (if |raw| < max then |raw| else max) && SortedBy(Before, kept)
    ensures forall i, j :: 0 <= i < |kept| && 0 <= j < |rest| ==> Before(kept[i], rest[j])
    ensures forall i :: 0 <= i < |kept| ==> FromCorpus(kept[i], byId)
    ensures var cs := Rank(raw, byId, max).value;
      |cs| == |kept| && forall i :: 0 <= i < |cs| ==> cs[i] == Wrapped(kept[i], i)
  {
    var rs := ResolveAll(raw, byId).value;
    ResolvedAreFromCorpus(raw, byId);
    rest, kept := CutSplits(rs, byId, max);
    WrapFacts(rs, kept, max);
  }

  // ---------- the ranking in the library's own terms ----------

  /** An entry the provider can use: it names a block of the request, with a positive finite score. */
  predicate IsUsable(raw: RawResult, byId: map<Text, Block>) {
    && raw.id.Value? && raw.id.value != [] && raw.id.value in byId
    && raw.score.Value? && raw.score.value.Finite? && raw.score.value.r > 0.0
  }

  /** What an entry that cannot be used is answered with: it was unreadable, it names no block, or its score is no
  positive number. */
  ghost predicate IsProblem(raw: RawResult, byId: map<Text, Block>, e: Failure) {
    match e
    case SearchFailed => raw.id.Unreadable?
    case UnknownResult => raw.id.OtherValue? || (raw.id.Value? && (raw.id.value == [] || raw.id.value !in byId))
    case InvalidScore(id) =>
      && raw.id == Value(id) && id != [] && id in byId
      && !(raw.score.Value? && raw.score.value.Finite? && raw.score.value.r > 0.0)
    case _ => false
  }

  ghost predicate FirstUnusable(raw: seq<RawResult>, byId: map<Text, Block>, e: Failure) {
    exists i :: 0 <= i < |raw| && IsProblem(raw[i], byId, e) && forall j :: 0 <= j < i ==> IsUsable(raw[j], byId)
  }

  /** A ranking is given exactly when every entry can be used; otherwise the first that cannot be decides. */
  lemma {:induction false} RankedIffUsable(raw: seq<RawResult>, byId: map<Text, Block>, max: nat)
    ensures Rank(raw, byId, max).Ok? <==> forall i :: 0 <= i < |raw| ==> IsUsable(raw[i], byId)
    ensures Rank(raw, byId, max).Err? ==> FirstUnusable(raw, byId, Rank(raw, byId, max).error)
  {
    if raw != [] {
      var tail := raw[1..];
      RankedIffUsable(tail, byId, max);
      if ResolveOne(raw[0], byId).Ok? {
        assert forall i :: 0 <= i < |tail| ==> tail[i] == raw[i + 1];
        if Rank(raw, byId, max).Err? {
          var e := Rank(raw, byId, max).error;
          var i :| 0 <= i < |tail| && IsProblem(tail[i], byId, e) && forall j :: 0 <= j < i ==> IsUsable(tail[j], byId);
          assert IsProblem(raw[i + 1], byId, e);
          forall j | 0 <= j < i + 1 ensures IsUsable(raw[j], byId) { if j > 0 { assert IsUsable(tail[j - 1], byId); } }
        } else {
          forall i | 0 <= i < |raw| ensures IsUsable(raw[i], byId) { if i > 0 { assert IsUsable(tail[i - 1], byId); } }
        }
      } else {
        assert IsProblem(raw[0], byId, ResolveOne(raw[0], byId).error);
      }
    }
  }

  /** The entry a result was resolved from. */
  function Entry(r: Resolved): RawResult { RawResult(Value(r.id), Value(Finite(r.score))) }

  function EntriesOf(rs: seq<Resolved>): (raw: seq<RawResult>)
    ensures |raw| == |rs| && forall i :: 0 <= i < |rs| ==> raw[i] == Entry(rs[i])
  {
    seq(|rs|, i requires 0 <= i < |rs| => Entry(rs[i]))
  }

  lemma ResolvedEntries(raw: seq<RawResult>, byId: map<Text, Block>)
    requires ResolveAll(raw, byId).Ok?
    ensures EntriesOf(ResolveAll(raw, byId).value) == raw
  {
    var rs := ResolveAll(raw, byId).value;
    ResolvedAreFromCorpus(raw, byId);
    forall i | 0 <= i < |raw| ensures Entry(rs[i]) == raw[i] { assert Ok(rs[i]) == ResolveOne(raw[i], byId); }
  }

  function Others<T>(s: seq<T>, k: nat): (r: seq<T>)
    requires k < |s|
    ensures |r| == |s| - 1
  {
    s[..k] + s[k + 1..]
  }

  lemma OthersWithout<T>(s: seq<T>, k: nat)
    requires k < |s|
    ensures multiset(s) == multiset(Others(s, k)) + multiset{s[k]}
  {
    assert s == s[..k] + ([s[k]] + s[k + 1..]);
  }

  lemma EntriesWithout(rs: seq<Resolved>, k: nat)
    requires k < |rs|
    ensures multiset(Others(rs, k)) == multiset(rs) - multiset{rs[k]}
    ensures multiset(EntriesOf(rs)) == multiset(EntriesOf(Others(rs, k))) + multiset{Entry(rs[k])}
  {
    OthersWithout(rs, k);
    OthersWithout(EntriesOf(rs), k);
    assert EntriesOf(Others(rs, k)) == Others(EntriesOf(rs), k);
  }

  lemma {:induction false} EntriesPermute(a: seq<Resolved>, b: seq<Resolved>)
    requires multiset(a) == multiset(b)
    ensures multiset(EntriesOf(a)) == multiset(EntriesOf(b))
    decreases |a|
  {
    SameElements(a, b);
    if a == [] {
      assert EntriesOf(a) == EntriesOf(b);
    } else {
      assert a[0] in a;
      var k :| 0 <= k < |b| && b[k] == a[0];
      var x, y := Others(a, 0), Others(b, k);
      EntriesWithout(a, 0);
      EntriesWithout(b, k);
      EntriesPermute(x, y);
    }
  }

  /** The library's entries from the highest score, ties in order of their identifiers. */
  ghost predicate InRankingOrder(raw: seq<RawResult>, byId: map<Text, Block>) {
    && (forall i :: 0 <= i < |raw| ==> IsUsable(raw[i], byId))
    && forall i, j :: 0 <= i < j < |raw| ==>
         || raw[i].score.value.r > raw[j].score.value.r
         || (raw[i].score == raw[j].score && (raw[i].id == raw[j].id || Less(raw[i].id.value, raw[j].id.value)))
  }

  /** The candidates are the library's entries in that order, as many as may be kept: each carries the block its
  entry names, its position as its rank, and the library's own score. */
  lemma RankedEntries(raw: seq<RawResult>, byId: map<Text, Block>, max: nat) returns (order: seq<RawResult>)
    requires Rank(raw, byId, max).Ok?
    ensures multiset(order) == multiset(raw) && |order| == |raw| && InRankingOrder(order, byId)
    ensures var cs := Rank(raw, byId, max).value;
      && |cs| == (if |raw| < max then |raw| else max)
      && forall i :: 0 <= i < |cs| ==>
           cs[i] == Candidate(byId[order[i].id.value], Some(Retrieval(NativeContract, Some(i), Some(order[i].score.value))))
  {
    var rs := ResolveAll(raw, byId).value;
    var sorted := Sort(Before, rs);
    BeforeIsPreorder();
    SortSorts(Before, rs);
    SortPermutes(Before, rs);
    SameElements(sorted, rs);
    ResolvedEntries(raw, byId);
    ResolvedAreFromCorpus(raw, byId);
    EntriesPermute(sorted, rs);
    SameElements(EntriesOf(sorted), raw);
    RankedIffUsable(raw, byId, max);
    order := EntriesOf(sorted);
    forall i | 0 <= i < |order| ensures IsUsable(order[i], byId) && FromCorpus(sorted[i], byId) {
      assert order[i] in order && order[i] in raw;
      assert sorted[i] in rs;
    }
  }

  // ---------- mapping native ranks to scores ----------

  datatype MapFailure = DuplicateCandidate | Unsupported

  function RankOf(c: Candidate): int {
    if c.retrieval.Some? && c.retrieval.value.rank.Some? then c.retrieval.value.rank.value else -1
  }

  predicate RankAtMost(a: Candidate, b: Candidate) { RankOf(a) <= RankOf(b) }

  /** The native score of a candidate, where it has a usable one. */
  function ScoreOf(c: Candidate): Option<real> {
    if c.retrieval.Some? && c.retrieval.value.score.Some? && c.retrieval.value.score.value.Finite?
       && c.retrieval.value.score.value.r > 0.0
    then Some(c.retrieval.value.score.value.r) else None
  }

  predicate IsSupported(c: Candidate, rank: int) {
    c.retrieval.Some? && c.retrieval.value.contract.NativeContract? && c.retrieval.value.rank == Some(rank) && ScoreOf(c).Some?
  }

  predicate DistinctBlocks(cs: seq<Candidate>) {
    forall i, j :: 0 <= i < j < |cs| ==> IdOf(cs[i].block) != IdOf(cs[j].block)
  }

  predicate AllSupported(cs: seq<Candidate>) {
    forall i :: 0 <= i < |cs| ==>
      IsSupported(cs[i], i) && (i > 0 ==> ScoreOf(cs[i - 1]).Some? && ScoreOf(cs[i]).value <= ScoreOf(cs[i - 1]).value)
  }

  function Mapped(c: Candidate): Candidate
    requires RankOf(c) >= 0
  {
    Candidate(c.block, Some(Retrieval(MappedContract, Some(RankOf(c)), Some(Finite(1.0 / (RankOf(c) + 1) as real)))))
  }

  function MapNative(cs: seq<Candidate>): Result<seq<Candidate>, MapFailure> {
    var sorted := Sort(RankAtMost, cs);
    if !DistinctBlocks(sorted) then Err(DuplicateCandidate)
    else if !AllSupported(sorted) then Err(Unsupported)
    else Ok(seq(|sorted|, i requires 0 <= i < |sorted| => (assert IsSupported(sorted[i], i); Mapped(sorted[i]))))
  }

  lemma RanksUntied(cs: seq<Candidate>)
    requires forall i :: 0 <= i < |cs| ==> RankOf(cs[i]) == i
    ensures SortedBy(RankAtMost, cs) && Untied(RankAtMost, cs)
  {
    forall x, y | x in cs && y in cs && RankAtMost(x, y) && RankAtMost(y, x) ensures x == y {
      var i :| 0 <= i < |cs| && cs[i] == x;
      var j :| 0 <= j < |cs| && cs[j] == y;
    }
  }

  /** Candidates that already stand in the order of their ranks are not moved. */
  lemma RankedStay(cs: seq<Candidate>)
    requires forall i :: 0 <= i < |cs| ==> RankOf(cs[i]) == i
    ensures Sort(RankAtMost, cs) == cs
  {
    RanksUntied(cs);
    SortPermutes(RankAtMost, cs);
    SortSorts(RankAtMost, cs);
    SortedUnique(RankAtMost, cs, Sort(RankAtMost, cs));
  }

  /** The mapped scores strictly decrease, from 1 towards 0. */
  lemma ReciprocalsDecrease(i: nat, j: nat)
    requires i < j
    ensures 0.0 < 1.0 / (j + 1) as real < 1.0 / (i + 1) as real <= 1.0
  {
    var a, b := (i + 1) as real, (j + 1) as real;
    InverseFacts(a);
    InverseFacts(b);
    InversesCross(a, b, 1.0 / a, 1.0 / b);
    if i > 0 { InversesCross(1.0, a, 1.0, 1.0 / a); }
  }

  lemma InverseFacts(a: real)
    requires a > 0.0
    ensures (1.0 / a) * a == 1.0 && 1.0 / a > 0.0
  {
    PositiveFactor(1.0 / a, a);
  }

  lemma PositiveFactor(x: real, a: real)
    requires a > 0.0 && x * a > 0.0
    ensures x > 0.0
  {
  }

  lemma ProductPositive(x: real, y: real)
    requires x > 0.0 && y > 0.0
    ensures x * y > 0.0
  {
  }

  /** The inverse of a greater number is smaller. */
  lemma InversesCross(a: real, b: real, x: real, y: real)
    requires 0.0 < a < b && x * a == 1.0 && y * b == 1.0 && x > 0.0
    ensures y < x
  {
    ProductPositive(x, b - a);
    assert x * (b - a) == x * b - x * a;
    assert (x - y) * b == x * b - y * b;
    PositiveFactor(x - y, b);
  }

  lemma WrappedAreSupported(kept: seq<Resolved>, cs: seq<Candidate>)
    requires |cs| == |kept| && forall i :: 0 <= i < |cs| ==> cs[i] == Wrapped(kept[i], i)
    requires SortedBy(Before, kept) && forall i :: 0 <= i < |kept| ==> kept[i].score > 0.0
    ensures AllSupported(cs) && forall i :: 0 <= i < |cs| ==> RankOf(cs[i]) == i
  {
    forall i | 0 <= i < |cs| ensures ScoreOf(cs[i]) == Some(kept[i].score) && RankOf(cs[i]) == i { }
    forall i | 0 < i < |kept| ensures kept[i].score <= kept[i - 1].score { assert Before(kept[i - 1], kept[i]); }
  }

  /** Every ranking is acceptable to the mapping as far as its evidence goes. */
  lemma RankedAreSupported(raw: seq<RawResult>, byId: map<Text, Block>, max: nat)
    requires Rank(raw, byId, max).Ok?
    ensures var cs := Rank(raw, byId, max).value; AllSupported(cs) && Sort(RankAtMost, cs) == cs
  {
    var cs := Rank(raw, byId, max).value;
    var rest, kept := RankIsBest(raw, byId, max);
    assert forall i :: 0 <= i < |kept| ==> FromCorpus(kept[i], byId);
    WrappedAreSupported(kept, cs);
    RankedStay(cs);
  }

  lemma MappedScore(c: Candidate, i: nat)
    requires IsSupported(c, i)
    ensures RankOf(c) == i && Mapped(c).block == c.block && ScoreOf(Mapped(c)) == Some(1.0 / (i + 1) as real)
  {
    ReciprocalsDecrease(i, i + 1);
  }

  lemma SupportedAreMapped(cs: seq<Candidate>)
    requires AllSupported(cs) && Sort(RankAtMost, cs) == cs
    ensures MapNative(cs).Ok? <==> DistinctBlocks(cs)
    ensures var ms := MapNative(cs);
      ms.Ok? ==> |ms.value| == |cs| && forall i :: 0 <= i < |cs| ==>
        ms.value[i].block == cs[i].block && ScoreOf(ms.value[i]) == Some(1.0 / (i + 1) as real)
  {
    forall i: nat | i < |cs|
      ensures IsSupported(cs[i], i) && Mapped(cs[i]).block == cs[i].block && ScoreOf(Mapped(cs[i])) == Some(1.0 / (i + 1) as real)
    {
      MappedScore(cs[i], i);
    }
  }

  /** The mapping accepts a ranking exactly when no block occurs in it twice; it then keeps the order
  and the blocks, and gives the reciprocal of the one-based position. */
  lemma RankedAreMapped(raw: seq<RawResult>, byId: map<Text, Block>, max: nat)
    requires Rank(raw, byId, max).Ok?
    ensures var cs := Rank(raw, byId, max).value;
      MapNative(cs).Ok? <==> DistinctBlocks(cs)
    ensures var cs := Rank(raw, byId, max).value; var ms := MapNative(cs);
      ms.Ok? ==> |ms.value| == |cs| && forall i :: 0 <= i < |cs| ==>
        ms.value[i].block == cs[i].block && ScoreOf(ms.value[i]) == Some(1.0 / (i + 1) as real)
  {
    RankedAreSupported(raw, byId, max);
    SupportedAreMapped(Rank(raw, byId, max).value);
  }

  /** What the mapping accepts does not depend on the order the candidates arrive in. */
  lemma MapOrderIndependent(a: seq<Candidate>, b: seq<Candidate>)
    requires multiset(a) == multiset(b) && MapNative(a).Ok?
    ensures MapNative(b) == MapNative(a)
  {
    var sorted := Sort(RankAtMost, a);
    assert forall i :: 0 <= i < |sorted| ==> IsSupported(sorted[i], i);
    RanksUntied(sorted);
    SortPermutes(RankAtMost, a);
    SameElements(sorted, a);
    SortOrderIndependent(RankAtMost, a, b);
  }

  /** Every rearrangement of a proper native ranking is accepted, and mapped as that ranking. */
  lemma MapAcceptsRankings(cs: seq<Candidate>, ranking: seq<Candidate>)
    requires multiset(ranking) == multiset(cs) && AllSupported(ranking) && DistinctBlocks(ranking)
    ensures MapNative(cs).Ok? && MapNative(cs) == MapNative(ranking)
    ensures |MapNative(cs).value| == |ranking|
    ensures forall i :: 0 <= i < |ranking| ==> MapNative(cs).value[i].block == ranking[i].block
  {
    forall i: nat | i < |ranking| ensures RankOf(ranking[i]) == i { assert IsSupported(ranking[i], i); }
    RankedStay(ranking);
    SupportedAreMapped(ranking);
    MapOrderIndependent(ranking, cs);
  }

  /** Nothing else is accepted. */
  lemma MapAcceptsOnlyRankings(cs: seq<Candidate>) returns (ranking: seq<Candidate>)
    requires MapNative(cs).Ok?
    ensures multiset(ranking) == multiset(cs) && AllSupported(ranking) && DistinctBlocks(ranking)
  {
    ranking := Sort(RankAtMost, cs);
    SortPermutes(RankAtMost, cs);
  }

  // ---------- the mapping in the candidates' own fields ----------

  /** The candidates stand by rank from 0 on, under the native contract, with positive finite scores that never rise,
  and no block occurs twice. */
  ghost predicate IsNativeRanking(cs: seq<Candidate>, scores: seq<real>) {
    && |scores| == |cs|
    && (forall i :: 0 <= i < |cs| ==> scores[i] > 0.0 && cs[i].retrieval == Some(Retrieval(NativeContract, Some(i), Some(Finite(scores[i])))))
    && (forall i, j :: 0 <= i < j < |cs| ==> scores[i] >= scores[j])
    && forall i, j :: 0 <= i < j < |cs| ==> IdOf(cs[i].block) != IdOf(cs[j].block)
  }

  function ScoresOf(cs: seq<Candidate>): (scores: seq<real>)
    requires forall i :: 0 <= i < |cs| ==> ScoreOf(cs[i]).Some?
    ensures |scores| == |cs| && forall i :: 0 <= i < |cs| ==> Some(scores[i]) == ScoreOf(cs[i])
  {
    seq(|cs|, i requires 0 <= i < |cs| => ScoreOf(cs[i]).value)
  }

  lemma {:induction false} ScoresNeverRise(cs: seq<Candidate>, i: nat, j: nat)
    requires AllSupported(cs) && i <= j < |cs|
    ensures ScoreOf(cs[i]).Some? && ScoreOf(cs[j]).Some? && ScoreOf(cs[i]).value >= ScoreOf(cs[j]).value
    decreases j
  {
    assert IsSupported(cs[j], j);
    if i < j { ScoresNeverRise(cs, i, j - 1); }
  }

  lemma SupportedIsRanking(cs: seq<Candidate>)
    requires AllSupported(cs) && DistinctBlocks(cs)
    ensures forall i :: 0 <= i < |cs| ==> ScoreOf(cs[i]).Some?
    ensures IsNativeRanking(cs, ScoresOf(cs))
  {
    forall i | 0 <= i < |cs| ensures IsSupported(cs[i], i) { }
    forall i, j | 0 <= i < j < |cs| ensures ScoreOf(cs[i]).value >= ScoreOf(cs[j]).value { ScoresNeverRise(cs, i, j); }
  }

  lemma RankingIsSupported(cs: seq<Candidate>, scores: seq<real>)
    requires IsNativeRanking(cs, scores)
    ensures AllSupported(cs) && DistinctBlocks(cs)
  {
    forall i | 0 <= i < |cs| ensures ScoreOf(cs[i]) == Some(scores[i]) && IsSupported(cs[i], i) { }
  }

  /** What the mapping makes of a candidate of rank `i`. */
  function MappedAt(block: Block, i: nat): Candidate {
    Candidate(block, Some(Retrieval(MappedContract, Some(i), Some(Finite(1.0 / (i + 1) as real)))))
  }

  function MappedAs(ranking: seq<Candidate>): seq<Candidate> {
    seq(|ranking|, i requires 0 <= i < |ranking| => MappedAt(ranking[i].block, i))
  }

  /** The mapping accepts a batch exactly when it rearranges a native ranking, and answers that ranking's blocks in
  order, with reciprocal scores under its own contract. */
  lemma MappedIffRanking(cs: seq<Candidate>)
    ensures MapNative(cs).Ok? <==> exists ranking, scores :: multiset(ranking) == multiset(cs) && IsNativeRanking(ranking, scores)
    ensures forall ranking, scores :: multiset(ranking) == multiset(cs) && IsNativeRanking(ranking, scores) ==>
      MapNative(cs) == Ok(MappedAs(ranking))
  {
    if MapNative(cs).Ok? {
      var ranking := MapAcceptsOnlyRankings(cs);
      SupportedIsRanking(ranking);
    }
    forall ranking, scores | multiset(ranking) == multiset(cs) && IsNativeRanking(ranking, scores)
      ensures MapNative(cs) == Ok(MappedAs(ranking))
    {
      RankingIsSupported(ranking, scores);
      MapAcceptsRankings(cs, ranking);
      RankingIsMapped(ranking, scores);
    }
  }

  lemma RankingIsMapped(ranking: seq<Candidate>, scores: seq<real>)
    requires IsNativeRanking(ranking, scores)
    ensures MapNative(ranking) == Ok(MappedAs(ranking))
  {
    RankingIsSupported(ranking, scores);
    forall i: nat | i < |ranking| ensures RankOf(ranking[i]) == i { }
    RankedStay(ranking);
    var ms := MapNative(ranking).value;
    forall i: nat | i < |ranking| ensures ms[i] == MappedAs(ranking)[i] { MappedIs(ranking[i], i); }
    assert ms == MappedAs(ranking);
  }

  lemma MappedIs(c: Candidate, i: nat)
    requires RankOf(c) == i
    ensures Mapped(c) == MappedAt(c.block, i)
  {
  }

  function BlockId(c: Candidate): Text { IdOf(c.block) }

  /** A refused batch names one block twice, or else its evidence is not a native ranking's. */
  lemma RefusedForRepetition(cs: seq<Candidate>)
    ensures MapNative(cs) == Err(DuplicateCandidate) <==> exists i, j :: 0 <= i < j < |cs| && IdOf(cs[i].block) == IdOf(cs[j].block)
  {
    var sorted := Sort(RankAtMost, cs);
    SortPermutes(RankAtMost, cs);
    if DistinctBlocks(sorted) {
      assert DistinctBy(BlockId, sorted);
      DistinctPermutes(BlockId, sorted, cs);
      assert forall i, j :: 0 <= i < j < |cs| ==> BlockId(cs[i]) != BlockId(cs[j]);
    }
    if DistinctBlocks(cs) {
      assert DistinctBy(BlockId, cs);
      DistinctPermutes(BlockId, cs, sorted);
      assert forall i, j :: 0 <= i < j < |sorted| ==> BlockId(sorted[i]) != BlockId(sorted[j]);
    }
  }

  /** A library that names one block twice is ranked by the provider and refused by the mapping. */
  lemma RepeatedResultIsRefused(b: Block, score: real)
    requires IsReadable(b) && score > 0.0
    ensures var result := RawResult(Value(IdOf(b)), Value(Finite(score))); var byId := map[IdOf(b) := b];
      Rank([result, result], byId, 2).Ok? && MapNative(Rank([result, result], byId, 2).value) == Err(DuplicateCandidate)
  {
    var result, byId := RawResult(Value(IdOf(b)), Value(Finite(score))), map[IdOf(b) := b];
    var raw := [result, result];
    var found := Resolved(IdOf(b), score, b);
    assert ResolveOne(result, byId) == Ok(found);
    assert raw[1..] == [result] && raw[1..][1..] == [];
    assert [found] + [] == [found] && [found] + [found] == [found, found];
    assert ResolveAll(raw[1..], byId) == Ok([found]);
    assert ResolveAll(raw, byId) == Ok([found, found]);
    var rest, kept := RankIsBest(raw, byId, 2);
    var cs := Rank(raw, byId, 2).value;
    assert FromCorpus(kept[0], byId) && FromCorpus(kept[1], byId);
    assert IdOf(cs[0].block) == IdOf(cs[1].block);
    RankedAreSupported(raw, byId, 2);
  }

  // ---------- one request from end to end ----------

  /** The library: any answer to any documents, or a throw. */
  type Library = (seq<Document>, Text) -> Option<seq<RawResult>>

  function Candidates(blocks: seq<Block>, query: Text, library: Library, max: nat): Result<seq<Candidate>, Failure> {
    if blocks == [] || IsBlank(query) then Ok([])
    else
      var corpus := CorpusOf(blocks);
      var raw := library(corpus.documents, query);
      if raw.None? then Err(SearchFailed) else Rank(raw.value, corpus.byId, max)
  }

  method GetCandidates(blocks: seq<Block>, query: Text, library: Library, max: nat)
    returns (candidates: Result<seq<Candidate>, Failure>)
    ensures IsBlank(query) ==> candidates == Ok([])
    ensures Acceptable(blocks, |blocks|) ==> candidates == Candidates(blocks, query, library, max)
    ensures !IsBlank(query) && !Acceptable(blocks, |blocks|) ==> candidates.Err? && FirstProblem(blocks, candidates.error)
    ensures blocks != [] && !IsBlank(query) && Acceptable(blocks, |blocks|) && library(CorpusOf(blocks).documents, query).None? ==>
      candidates == Err(SearchFailed)
  {
    if blocks == [] || IsBlank(query) { return Ok([]); }
    var corpus := DocumentsOf(blocks);
    if corpus.Err? { return Err(corpus.error); }
    var raw := library(corpus.value.documents, query);
    if raw.None? { return Err(SearchFailed); }
    var resolved := ResolveAll(raw.value, corpus.value.byId);
    if resolved.Err? { return Err(resolved.error); }
    return Ok(Wrap(resolved.value, max));
  }

  /** Every candidate carries a block of the request itself. */
  lemma CandidatesAreRequestBlocks(blocks: seq<Block>, query: Text, library: Library, max: nat)
    requires Candidates(blocks, query, library, max).Ok?
    ensures forall i :: 0 <= i < |Candidates(blocks, query, library, max).value| ==>
      Candidates(blocks, query, library, max).value[i].block in blocks
  {
    if blocks != [] && !IsBlank(query) {
      var corpus := CorpusOf(blocks);
      var rest, kept := RankIsBest(library(corpus.documents, query).value, corpus.byId, max);
      ByIdFacts(blocks, |blocks|);
      forall i | 0 <= i < |kept| ensures kept[i].block in blocks { assert FromCorpus(kept[i], corpus.byId); }
    }
  }

  predicate IdAtMost(a: Block, b: Block) { AtMost(IdOf(a), IdOf(b)) }

  function AtLeastOne(n: nat): nat { if n == 0 then 1 else n }

  /** The calibration profile: the corpus in the order of its identifiers, uncut, then mapped. */
  function NativeForProfile(blocks: seq<Block>, query: Text, library: Library): Result<seq<Candidate>, Failure> {
    Candidates(Sort(IdAtMost, blocks), query, library, AtLeastOne(|blocks|))
  }

  ghost predicate DistinctIds(blocks: seq<Block>) {
    forall i, j :: 0 <= i < j < |blocks| ==> IdOf(blocks[i]) != IdOf(blocks[j])
  }

  /** The order in which a request lists its blocks does not matter to the profile, whatever the library
  makes of the documents. */
  lemma ProfileOrderIndependent(a: seq<Block>, b: seq<Block>, query: Text, library: Library)
    requires multiset(a) == multiset(b) && DistinctIds(a)
    ensures NativeForProfile(a, query, library) == NativeForProfile(b, query, library)
  {
    SameElements(a, b);
    AtMostIsTotalOrder();
    forall x, y | x in a && y in a && IdAtMost(x, y) && IdAtMost(y, x) ensures x == y {
      var i :| 0 <= i < |a| && a[i] == x;
      var j :| 0 <= j < |a| && a[j] == y;
      assert IdOf(a[i]) == IdOf(a[j]);
    }
    SortOrderIndependent(IdAtMost, a, b);
  }

  /** What the library is given: every document of the request, by ascending identifier. */
  lemma ProfileDocuments(blocks: seq<Block>)
    ensures var sorted := Sort(IdAtMost, blocks); var documents := CorpusOf(sorted).documents;
      && multiset(sorted) == multiset(blocks) && |documents| == |blocks|
      && (forall i :: 0 <= i < |documents| ==> documents[i] == Document(IdOf(sorted[i]), ContentOf(sorted[i])))
      && forall i, j :: 0 <= i < j < |documents| ==> documents[i].id == documents[j].id || Less(documents[i].id, documents[j].id)
  {
    AtMostIsTotalOrder();
    SortPermutes(IdAtMost, blocks);
    SortSorts(IdAtMost, blocks);
    SameElements(Sort(IdAtMost, blocks), blocks);
  }

  ghost predicate NamesOnce(raw: seq<RawResult>) {
    forall i, j :: 0 <= i < j < |raw| ==> raw[i].id != raw[j].id
  }

  function NamesIn(raw: seq<RawResult>): set<Property<Text>> { set r | r in raw :: r.id }

  lemma {:induction false} NamesCard(raw: seq<RawResult>)
    requires NamesOnce(raw)
    ensures |NamesIn(raw)| == |raw|
  {
    if raw != [] {
      var n := |raw| - 1;
      NamesCard(raw[..n]);
      assert raw == raw[..n] + [raw[n]];
      forall r | r in raw[..n] ensures r.id != raw[n].id { var i :| 0 <= i < n && raw[i] == r; }
      assert NamesIn(raw) == NamesIn(raw[..n]) + {raw[n].id};
    }
  }

  function IdsIn(blocks: seq<Block>): set<Property<Text>> { set b | b in blocks :: Value(IdOf(b)) }

  lemma {:induction false} IdsCard(blocks: seq<Block>)
    ensures |IdsIn(blocks)| <= |blocks|
  {
    if blocks != [] {
      var n := |blocks| - 1;
      IdsCard(blocks[..n]);
      assert blocks == blocks[..n] + [blocks[n]];
      assert IdsIn(blocks) == IdsIn(blocks[..n]) + {Value(IdOf(blocks[n]))};
    }
  }

  lemma AtMostSubset<T>(a: set<T>, b: set<T>)
    requires a <= b
    ensures |a| <= |b|
  {
    assert b == a + (b - a);
  }

  /** An answer that names no block twice is no longer than the request. */
  lemma {:induction false} NoLongerThanRequest(blocks: seq<Block>, raw: seq<RawResult>)
    requires NamesOnce(raw) && forall i :: 0 <= i < |raw| ==> IsUsable(raw[i], ByIdTo(blocks, |blocks|))
    ensures |raw| <= |blocks|
  {
    NamesCard(raw);
    IdsCard(blocks);
    ByIdFacts(blocks, |blocks|);
    forall name | name in NamesIn(raw) ensures name in IdsIn(blocks) {
      var r :| r in raw && r.id == name;
      var i :| 0 <= i < |raw| && raw[i] == r;
      assert IsUsable(raw[i], ByIdTo(blocks, |blocks|));
    }
    AtMostSubset(NamesIn(raw), IdsIn(blocks));
  }

  /** The profile cuts nothing: it keeps every entry of an answer that names no block twice. */
  lemma ProfileKeepsAll(blocks: seq<Block>, query: Text, library: Library, raw: seq<RawResult>)
    requires blocks != [] && !IsBlank(query) && NamesOnce(raw)
    requires library(CorpusOf(Sort(IdAtMost, blocks)).documents, query) == Some(raw)
    requires NativeForProfile(blocks, query, library).Ok?
    ensures |NativeForProfile(blocks, query, library).value| == |raw|
  {
    var sorted := Sort(IdAtMost, blocks);
    var byId := CorpusOf(sorted).byId;
    SortPermutes(IdAtMost, blocks);
    SameElements(sorted, blocks);
    RankedIffUsable(raw, byId, AtLeastOne(|blocks|));
    NoLongerThanRequest(sorted, raw);
    var order := RankedEntries(raw, byId, AtLeastOne(|blocks|));
  }

  lemma ResolvedIdsDiffer(raw: seq<RawResult>, byId: map<Text, Block>)
    requires NamesOnce(raw) && ResolveAll(raw, byId).Ok?
    ensures var rs := ResolveAll(raw, byId).value; forall i, j :: 0 <= i < j < |rs| ==> rs[i].id != rs[j].id
  {
    var rs := ResolveAll(raw, byId).value;
    ResolvedAreFromCorpus(raw, byId);
    forall i, j | 0 <= i < j < |rs| ensures rs[i].id != rs[j].id {
      assert raw[i].id != raw[j].id;
      assert Ok(rs[i]) == ResolveOne(raw[i], byId) && Ok(rs[j]) == ResolveOne(raw[j], byId);
    }
  }

  /** A library that names no block twice gives a ranking the mapping accepts. */
  lemma NamedOnceIsMapped(blocks: seq<Block>, raw: seq<RawResult>, max: nat)
    requires NamesOnce(raw) && Rank(raw, CorpusOf(blocks).byId, max).Ok?
    ensures MapNative(Rank(raw, CorpusOf(blocks).byId, max).value).Ok?
  {
    var byId := CorpusOf(blocks).byId;
    var rest, kept := RankIsBest(raw, byId, max);
    ResolvedIdsDiffer(raw, byId);
    KeptIdsDiffer(ResolveAll(raw, byId).value, kept, rest);
    ByIdFacts(blocks, |blocks|);
    var cs := Rank(raw, byId, max).value;
    forall i, j | 0 <= i < j < |cs| ensures IdOf(cs[i].block) != IdOf(cs[j].block) {
      assert FromCorpus(kept[i], byId) && FromCorpus(kept[j], byId);
    }
    RankedAreMapped(raw, byId, max);
  }

  /** Results with different identifiers keep them apart under any rearrangement. */
  lemma KeptIdsDiffer(rs: seq<Resolved>, kept: seq<Resolved>, rest: seq<Resolved>)
    requires multiset(kept + rest) == multiset(rs)
    requires forall i, j :: 0 <= i < j < |rs| ==> rs[i].id != rs[j].id
    ensures forall i, j :: 0 <= i < j < |kept| ==> kept[i].id != kept[j].id
  {
    SameElements(kept + rest, rs);
    forall i, j | 0 <= i < j < |kept| ensures kept[i].id != kept[j].id {
      TwoOccurrences(kept, i, j);
      if kept[i].id == kept[j].id {
        assert kept[i] in kept + rest && kept[j] in kept + rest;
        var x :| 0 <= x < |rs| && rs[x] == kept[i];
        var y :| 0 <= y < |rs| && rs[y] == kept[j];
        OneOccurrence(rs, x);
      }
    }
  }

  lemma TwoOccurrences(s: seq<Resolved>, i: nat, j: nat)
    requires i < j < |s|
    ensures s[i] == s[j] ==> multiset(s)[s[i]] >= 2
  {
    assert s == s[..j] + ([s[j]] + s[j + 1..]);
    assert s[i] in s[..j];
  }

  lemma OneOccurrence(s: seq<Resolved>, x: nat)
    requires x < |s| && forall i, j :: 0 <= i < j < |s| ==> s[i].id != s[j].id
    ensures multiset(s)[s[x]] == 1
  {
    assert s == s[..x] + ([s[x]] + s[x + 1..]);
    assert s[x] !in s[..x] && s[x] !in s[x + 1..];
  }
}
