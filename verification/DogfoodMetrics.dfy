/** Loss attribution: at which stage of preparation, retrieval and selection each useful unit is lost. */
module DogfoodMetrics {
  import opened Options
  import opened Utf16
  import opened Splitting
  import opened Evidence

  // ---------- counting stages ----------

  const STAGES := 6

  type Unit = seq<bool>

  predicate At(u: Unit, stage: nat) { stage < |u| && u[stage] }

  /** No stage is reached without the one before. */
  predicate Monotone(u: Unit) { forall i :: 0 < i < |u| && u[i] ==> u[i - 1] }

  function Count(units: seq<Unit>, p: Unit -> bool): nat {
    if units == [] then 0 else (if p(units[0]) then 1 else 0) + Count(units[1..], p)
  }

  datatype Losses = Losses(
    retrieval: int, sourceUnavailable: int, preparation: int, noMatch: int, retrievalCap: int,
    admission: int, allocation: int)

  datatype Counts = Counts(
    total: nat, source: nat, prepared: nat, matching: nat, capped: nat, admitted: nat, final: nat, losses: Losses)

  function Reached(units: seq<Unit>, stage: nat): nat { Count(units, u => At(u, stage)) }

  /** `None` stands for the rejection of evidence that is not monotone. */
  function StageCounts(units: seq<Unit>): Option<Counts> {
    if exists i :: 0 <= i < |units| && !Monotone(units[i]) then None
    else
      var total, source, prepared := |units|, Reached(units, 0), Reached(units, 1);
      var matching, capped := Reached(units, 2), Reached(units, 3);
      var admitted, final := Reached(units, 4), Reached(units, 5);
      Some(Counts(total, source, prepared, matching, capped, admitted, final,
        Losses(total - capped, total - source, source - prepared, prepared - matching, matching - capped,
               capped - admitted, admitted - final)))
  }

  /** The first stage a unit does not reach, or the number of stages if it reaches all. */
  function FirstLost(u: Unit): (k: nat)
    ensures k <= STAGES
    ensures forall i: nat :: i < k ==> At(u, i)
    ensures k < STAGES ==> !At(u, k)
  {
    if !At(u, 0) then 0 else if !At(u, 1) then 1 else if !At(u, 2) then 2
    else if !At(u, 3) then 3 else if !At(u, 4) then 4 else if !At(u, 5) then 5 else 6
  }

  function LostAt(units: seq<Unit>, stage: nat): nat { Count(units, u => FirstLost(u) == stage) }

  lemma {:induction false} MonotoneReaches(u: Unit, i: nat, j: nat)
    requires Monotone(u) && i <= j && At(u, j)
    ensures At(u, i)
    decreases j
  {
    if i < j { MonotoneReaches(u, i, j - 1); }
  }

  /** For one monotone unit, reaching a stage means being lost later. */
  lemma ReachedIffLostLater(u: Unit, stage: nat)
    requires Monotone(u) && stage < STAGES
    ensures At(u, stage) <==> FirstLost(u) > stage
  {
    if At(u, stage) && FirstLost(u) <= stage { MonotoneReaches(u, FirstLost(u), stage); }
  }

  /** The units that reach a stage are those that reach the next and those lost between. */
  lemma {:induction false} ReachedSplits(units: seq<Unit>, stage: nat)
    requires stage < STAGES && forall i :: 0 <= i < |units| ==> Monotone(units[i])
    ensures (if stage == 0 then |units| else Reached(units, stage - 1)) == Reached(units, stage) + LostAt(units, stage)
  {
    if units != [] {
      ReachedSplits(units[1..], stage);
      ReachedIffLostLater(units[0], stage);
      if stage > 0 { ReachedIffLostLater(units[0], stage - 1); }
    }
  }

  /** Where counting does not reject, every loss is exactly the number of units first lost at that
  stage, and the losses together with the units that reached the end make up all of them. */
  lemma LossesAttributed(units: seq<Unit>)
    requires StageCounts(units).Some?
    ensures var c := StageCounts(units).value;
      && c.losses.sourceUnavailable == LostAt(units, 0) && c.losses.preparation == LostAt(units, 1)
      && c.losses.noMatch == LostAt(units, 2) && c.losses.retrievalCap == LostAt(units, 3)
      && c.losses.admission == LostAt(units, 4) && c.losses.allocation == LostAt(units, 5)
      && c.source + LostAt(units, 0) == c.total && c.prepared + LostAt(units, 1) == c.source
      && c.matching + LostAt(units, 2) == c.prepared && c.capped + LostAt(units, 3) == c.matching
      && c.admitted + LostAt(units, 4) == c.capped && c.final + LostAt(units, 5) == c.admitted
      && c.losses.retrieval == LostAt(units, 0) + LostAt(units, 1) + LostAt(units, 2) + LostAt(units, 3)
      && c.final + LostAt(units, 0) + LostAt(units, 1) + LostAt(units, 2) + LostAt(units, 3) + LostAt(units, 4)
         + LostAt(units, 5) == c.total == |units|
  {
    ReachedSplits(units, 0);
    ReachedSplits(units, 1);
    ReachedSplits(units, 2);
    ReachedSplits(units, 3);
    ReachedSplits(units, 4);
    ReachedSplits(units, 5);
  }

  // ---------- mapped evidence ----------

  /** Where an annotator found a quote: an offset range of the source, or one message of a conversation,
  perhaps with its position. */
  datatype Location = InText(range: Range) | InMessage(messageId: Text, index: Option<nat>)

  /** An annotated unit; `location` is absent where the annotator gave none. */
  datatype Useful = Useful(id: Text, sourceId: Text, location: Option<Location>, quote: Text)

  datatype Message = Message(id: Text, content: Text)

  /** `messages` is what parsing the content as a conversation gives, `None` where that fails. */
  datatype Source = Source(
    id: Text, document: Text, isConversation: bool, content: Option<Text>, messages: Option<seq<Message>>)

  datatype MappedEvidence = MappedEvidence(id: Text, sourceAvailable: bool, blockIds: seq<Text>, complete: bool)

  /** No source before this one has its identifier. */
  ghost predicate IsFirst(sources: seq<Source>, source: Source) {
    exists i :: 0 <= i < |sources| && sources[i] == source && forall j :: 0 <= j < i ==> sources[j].id != source.id
  }

  /** The first source with an identifier. */
  function FindSource(sources: seq<Source>, id: Text): (source: Option<Source>)
    ensures source.Some? ==> source.value.id == id && IsFirst(sources, source.value)
    ensures source.None? ==> forall j :: 0 <= j < |sources| ==> sources[j].id != id
  {
    if sources == [] then None else if sources[0].id == id then Some(sources[0]) else FindSource(sources[1..], id)
  }

  /** The position of the first message with an identifier. */
  function FindMessage(messages: seq<Message>, id: Text): (i: Option<nat>)
    ensures i.Some? ==> i.value < |messages| && messages[i.value].id == id
    ensures i.Some? ==> forall j :: 0 <= j < i.value ==> messages[j].id != id
    ensures i.None? ==> forall j :: 0 <= j < |messages| ==> messages[j].id != id
  {
    if messages == [] then None
    else if messages[0].id == id then Some(0)
    else
      var rest := FindMessage(messages[1..], id);
      if rest.None? then None else Some(rest.value + 1)
  }

  /** The blocks prepared from one message. */
  function MessageBlocks(blocks: seq<Block>, document: Text, messageId: Text): seq<Block> {
    if blocks == [] then []
    else
      (if blocks[0].document == document && blocks[0].place == Evidence.Message(messageId) then [blocks[0]] else [])
      + MessageBlocks(blocks[1..], document, messageId)
  }

  /** Exactly the blocks of that message, in their order and as often as they occur. */
  lemma {:induction false} MessageBlocksAre(a: seq<Block>, b: seq<Block>, one: Block, document: Text, messageId: Text)
    ensures MessageBlocks(a + b, document, messageId) == MessageBlocks(a, document, messageId) + MessageBlocks(b, document, messageId)
    ensures MessageBlocks([], document, messageId) == []
    ensures MessageBlocks([one], document, messageId) ==
      if one.document == document && one.place.Message? && one.place.messageId == messageId then [one] else []
  {
    assert [one][1..] == [];
    if a == [] {
      assert a + b == b;
    } else {
      MessageBlocksAre(a[1..], b, one, document, messageId);
      assert (a + b)[1..] == a[1..] + b && (a + b)[0] == a[0];
    }
  }

  ghost predicate IsMappedText(quote: Text, at: Range, source: Source, blocks: seq<Block>, m: MappedEvidence)
    requires source.content.Some?
  {
    var content := source.content.value;
    && !source.isConversation
    && at.start < at.end <= |content| && Slice(content, at.start, at.end) == quote
    && m.blockIds == IdsOf(Overlapping(blocks, source.document, at.start, at.end))
    && (m.complete <==> forall i: nat :: at.start <= i < at.end && !SpaceAt(content, i) ==>
          InSomeBlock(blocks, source.document, i))
  }

  ghost predicate IsMappedMessage(quote: Text, messageId: Text, index: Option<nat>, source: Source, blocks: seq<Block>, m: MappedEvidence) {
    && source.isConversation && source.messages.Some?
    && (var found := FindMessage(source.messages.value, messageId);
        && found.Some? && source.messages.value[found.value].content == quote
        && (index.Some? ==> index == found))
    && m.blockIds == IdsOf(MessageBlocks(blocks, source.document, messageId))
    && m.complete
  }

  /** What mapping makes of one unit whose source is known and whose quote is where it says. */
  ghost predicate IsMapped(u: Useful, sources: seq<Source>, blocks: seq<Block>, m: MappedEvidence) {
    var source := FindSource(sources, u.sourceId);
    && m.id == u.id && source.Some?
    && if source.value.content.None? || u.location.None? then !m.sourceAvailable && m.blockIds == [] && m.complete
       else
         && m.sourceAvailable
         && match u.location.value
            case InText(at) => IsMappedText(u.quote, at, source.value, blocks, m)
            case InMessage(id, index) => IsMappedMessage(u.quote, id, index, source.value, blocks, m)
  }

  /** No answer is right for this unit: its annotation has to be rejected. */
  ghost predicate IsUnmappable(u: Useful, sources: seq<Source>, blocks: seq<Block>) {
    forall m :: !IsMapped(u, sources, blocks, m)
  }

  method MapOne(u: Useful, sources: seq<Source>, blocks: seq<Block>) returns (mapped: Option<MappedEvidence>)
    ensures mapped.Some? ==> IsMapped(u, sources, blocks, mapped.value)
    ensures mapped.None? ==> IsUnmappable(u, sources, blocks)
  {
    var found := FindSource(sources, u.sourceId);
    if found.None? { return None; }
    var source := found.value;
    if source.content.None? || u.location.None? { return Some(MappedEvidence(u.id, false, [], true)); }
    match u.location.value
    case InMessage(messageId, index) =>
      if !source.isConversation || source.messages.None? { return None; }
      var at := FindMessage(source.messages.value, messageId);
      if at.None? || source.messages.value[at.value].content != u.quote || (index.Some? && index.value != at.value) {
        return None;
      }
      return Some(MappedEvidence(u.id, true, IdsOf(MessageBlocks(blocks, source.document, messageId)), true));
    case InText(at) =>
      if source.isConversation { return None; }
      var mapping := MapTextEvidence(source.content.value, source.document, at.start, at.end, u.quote, blocks);
      if mapping.Mismatch? { return None; }
      return Some(MappedEvidence(u.id, true, mapping.blockIds, mapping.complete));
  }

  /** A negative judgment of a block that is not in the corpus, or that carries useful evidence. */
  predicate IsMisjudged(id: Text, blocks: seq<Block>, mapped: seq<MappedEvidence>) {
    || id !in IdsOf(blocks)
    || exists i :: 0 <= i < |mapped| && id in mapped[i].blockIds
  }

  /** Maps every annotated unit to the prepared blocks that carry it; `None` stands for an annotation
  that is rejected. */
  method MapEvidence(useful: seq<Useful>, irrelevant: seq<Text>, sources: seq<Source>, blocks: seq<Block>)
    returns (mapped: Option<seq<MappedEvidence>>)
    ensures mapped.Some? ==> |mapped.value| == |useful|
    ensures mapped.Some? ==> forall i :: 0 <= i < |useful| ==> IsMapped(useful[i], sources, blocks, mapped.value[i])
    ensures mapped.Some? ==> forall id :: id in irrelevant ==>
      (exists b :: b in blocks && b.id == id) && forall m :: m in mapped.value ==> id !in m.blockIds
    ensures mapped.None? && (forall i :: 0 <= i < |useful| ==> !IsUnmappable(useful[i], sources, blocks)) ==>
      exists all: seq<MappedEvidence>, id :: id in irrelevant && IsMisjudged(id, blocks, all) && |all| == |useful|
        && forall i :: 0 <= i < |useful| ==> IsMapped(useful[i], sources, blocks, all[i])
  {
    var out := [];
    for i := 0 to |useful|
      invariant |out| == i
      invariant forall j :: 0 <= j < i ==> IsMapped(useful[j], sources, blocks, out[j])
    {
      var one := MapOne(useful[i], sources, blocks);
      if one.None? { return None; }
      out := out + [one.value];
    }
    if i :| 0 <= i < |irrelevant| && IsMisjudged(irrelevant[i], blocks, out) {
      assert irrelevant[i] in irrelevant;
      return None;
    }
    forall id | id in irrelevant ensures (exists b :: b in blocks && b.id == id) && forall m :: m in out ==> id !in m.blockIds {
      var i :| 0 <= i < |irrelevant| && irrelevant[i] == id;
      JudgedRight(id, blocks, out);
    }
    return Some(out);
  }

  lemma JudgedRight(id: Text, blocks: seq<Block>, mapped: seq<MappedEvidence>)
    ensures !IsMisjudged(id, blocks, mapped) <==>
      (exists b :: b in blocks && b.id == id) && forall m :: m in mapped ==> id !in m.blockIds
  {
    if id in IdsOf(blocks) {
      var i :| 0 <= i < |blocks| && IdsOf(blocks)[i] == id;
      assert blocks[i] in blocks;
    }
    if b :| b in blocks && b.id == id {
      var i :| 0 <= i < |blocks| && blocks[i] == b;
      assert IdsOf(blocks)[i] == id;
    }
    if !IsMisjudged(id, blocks, mapped) {
      forall m | m in mapped ensures id !in m.blockIds { var i :| 0 <= i < |mapped| && mapped[i] == m; }
    }
  }

  // ---------- evidence and facts through the stages ----------

  /** The five sets of surviving block identifiers, each stage keeping some of the one before. */
  datatype Stages = Stages(
    prepared: set<Text>, matching: set<Text>, capped: set<Text>, admitted: set<Text>, final: set<Text>)
  {
    predicate Nested() { final <= admitted <= capped <= matching <= prepared }
  }

  predicate Carried(m: MappedEvidence, blocks: set<Text>) {
    m.complete && m.blockIds != [] && forall i :: 0 <= i < |m.blockIds| ==> m.blockIds[i] in blocks
  }

  function EvidenceUnit(m: MappedEvidence, s: Stages): (u: Unit)
    ensures |u| == STAGES
  {
    [m.sourceAvailable, Carried(m, s.prepared), Carried(m, s.matching), Carried(m, s.capped),
     Carried(m, s.admitted), Carried(m, s.final)]
  }

  function EvidenceUnits(mapped: seq<MappedEvidence>, s: Stages): (units: seq<Unit>)
    ensures |units| == |mapped| && forall i :: 0 <= i < |units| ==> units[i] == EvidenceUnit(mapped[i], s)
  {
    seq(|mapped|, i requires 0 <= i < |mapped| => EvidenceUnit(mapped[i], s))
  }

  /** A fact holds where all evidence of one of its alternatives does. */
  datatype Fact = Fact(alternatives: seq<seq<Text>>, critical: bool)

  /** The position of an evidence identifier, or none. */
  function IndexOf(mapped: seq<MappedEvidence>, id: Text): (i: Option<nat>)
    ensures i.Some? ==> i.value < |mapped| && mapped[i.value].id == id
  {
    if mapped == [] then None
    else if mapped[0].id == id then Some(0)
    else
      var rest := IndexOf(mapped[1..], id);
      if rest.None? then None else Some(rest.value + 1)
  }

  predicate EvidenceAt(mapped: seq<MappedEvidence>, units: seq<Unit>, id: Text, stage: nat) {
    var i := IndexOf(mapped, id);
    i.Some? && i.value < |units| && At(units[i.value], stage)
  }

  predicate AlternativeAt(mapped: seq<MappedEvidence>, units: seq<Unit>, ids: seq<Text>, stage: nat) {
    forall k :: 0 <= k < |ids| ==> EvidenceAt(mapped, units, ids[k], stage)
  }

  predicate FactAt(f: Fact, mapped: seq<MappedEvidence>, units: seq<Unit>, stage: nat) {
    exists k :: 0 <= k < |f.alternatives| && AlternativeAt(mapped, units, f.alternatives[k], stage)
  }

  function FactUnit(f: Fact, mapped: seq<MappedEvidence>, units: seq<Unit>): (u: Unit)
    ensures |u| == STAGES && forall i :: 0 <= i < STAGES ==> u[i] == FactAt(f, mapped, units, i)
  {
    seq(STAGES, i requires 0 <= i < STAGES => FactAt(f, mapped, units, i))
  }

  function FactUnits(facts: seq<Fact>, mapped: seq<MappedEvidence>, units: seq<Unit>): (r: seq<Unit>)
    ensures |r| == |facts| && forall i :: 0 <= i < |r| ==> r[i] == FactUnit(facts[i], mapped, units)
  {
    seq(|facts|, i requires 0 <= i < |facts| => FactUnit(facts[i], mapped, units))
  }

  function Critical(facts: seq<Fact>): seq<Fact> {
    if facts == [] then [] else (if facts[0].critical then [facts[0]] else []) + Critical(facts[1..])
  }

  datatype EvidenceMetrics = EvidenceMetrics(evidence: Counts, facts: Counts, critical: Counts)

  function Measure(mapped: seq<MappedEvidence>, facts: seq<Fact>, s: Stages): Option<EvidenceMetrics> {
    var units := EvidenceUnits(mapped, s);
    var evidence :- StageCounts(units);
    var all :- StageCounts(FactUnits(facts, mapped, units));
    var critical :- StageCounts(FactUnits(Critical(facts), mapped, units));
    Some(EvidenceMetrics(evidence, all, critical))
  }

  lemma UnitIsMonotone(m: MappedEvidence, s: Stages)
    requires s.Nested() && (m.blockIds == [] || m.sourceAvailable)
    ensures Monotone(EvidenceUnit(m, s))
  {
    var u := EvidenceUnit(m, s);
    assert Carried(m, s.final) ==> Carried(m, s.admitted);
    assert Carried(m, s.admitted) ==> Carried(m, s.capped);
    assert Carried(m, s.capped) ==> Carried(m, s.matching);
    assert Carried(m, s.matching) ==> Carried(m, s.prepared);
  }

  lemma FactIsMonotone(f: Fact, mapped: seq<MappedEvidence>, units: seq<Unit>)
    requires forall i :: 0 <= i < |units| ==> Monotone(units[i])
    ensures Monotone(FactUnit(f, mapped, units))
  {
    forall i: nat | 0 < i < STAGES && FactAt(f, mapped, units, i)
      ensures FactAt(f, mapped, units, i - 1)
    {
      var k :| 0 <= k < |f.alternatives| && AlternativeAt(mapped, units, f.alternatives[k], i);
      forall j | 0 <= j < |f.alternatives[k]| ensures EvidenceAt(mapped, units, f.alternatives[k][j], i - 1) {
        assert EvidenceAt(mapped, units, f.alternatives[k][j], i);
      }
      assert AlternativeAt(mapped, units, f.alternatives[k], i - 1);
    }
  }

  /** Measuring never rejects what mapping produced, for any facts and any nested stages. */
  lemma MappedNeverRejected(
    useful: seq<Useful>, sources: seq<Source>, blocks: seq<Block>, mapped: seq<MappedEvidence>, facts: seq<Fact>, s: Stages)
    requires |mapped| == |useful| && forall i :: 0 <= i < |useful| ==> IsMapped(useful[i], sources, blocks, mapped[i])
    requires s.final <= s.admitted <= s.capped <= s.matching <= s.prepared
    ensures Measure(mapped, facts, s).Some?
  {
    var units := EvidenceUnits(mapped, s);
    forall i | 0 <= i < |units| ensures Monotone(units[i]) {
      assert IsMapped(useful[i], sources, blocks, mapped[i]);
      UnitIsMonotone(mapped[i], s);
    }
    forall f ensures Monotone(FactUnit(f, mapped, units)) { FactIsMonotone(f, mapped, units); }
  }

  // ---------- what is counted, from the evidence and the stage sets ----------

  /** Evidence survives where it was prepared as a whole, into at least one block, and none of its blocks is
  missing. */
  predicate SurvivesIn(m: MappedEvidence, blocks: set<Text>) {
    m.complete && |m.blockIds| > 0 && (set id | id in m.blockIds) <= blocks
  }

  /** Whether evidence reaches a stage: its source, preparation, matching, the cap, admission, the final context. */
  predicate Survives(m: MappedEvidence, s: Stages, stage: nat) {
    match stage
    case 0 => m.sourceAvailable
    case 1 => SurvivesIn(m, s.prepared)
    case 2 => SurvivesIn(m, s.matching)
    case 3 => SurvivesIn(m, s.capped)
    case 4 => SurvivesIn(m, s.admitted)
    case 5 => SurvivesIn(m, s.final)
    case _ => false
  }

  /** The first evidence under an identifier survives. */
  ghost predicate NamedSurvives(mapped: seq<MappedEvidence>, s: Stages, id: Text, stage: nat) {
    exists j :: 0 <= j < |mapped| && mapped[j].id == id && Survives(mapped[j], s, stage) && forall i :: 0 <= i < j ==> mapped[i].id != id
  }

  ghost predicate AllSurvive(mapped: seq<MappedEvidence>, s: Stages, ids: seq<Text>, stage: nat) {
    forall k :: 0 <= k < |ids| ==> NamedSurvives(mapped, s, ids[k], stage)
  }

  /** A fact survives with all evidence of one of its alternatives. */
  ghost predicate FactSurvives(f: Fact, mapped: seq<MappedEvidence>, s: Stages, stage: nat) {
    exists a :: 0 <= a < |f.alternatives| && AllSurvive(mapped, s, f.alternatives[a], stage)
  }

  function NumberAt(c: Counts, stage: nat): nat
    requires stage < STAGES
  {
    [c.source, c.prepared, c.matching, c.capped, c.admitted, c.final][stage]
  }

  lemma UnitIs(m: MappedEvidence, s: Stages, stage: nat)
    ensures At(EvidenceUnit(m, s), stage) <==> Survives(m, s, stage)
  {
    forall blocks ensures Carried(m, blocks) <==> SurvivesIn(m, blocks) {
      assert (forall i :: 0 <= i < |m.blockIds| ==> m.blockIds[i] in blocks) <==> forall id :: id in m.blockIds ==> id in blocks;
    }
  }

  lemma {:induction false} FirstNamed(mapped: seq<MappedEvidence>, id: Text)
    ensures IndexOf(mapped, id).Some? ==> forall i :: 0 <= i < IndexOf(mapped, id).value ==> mapped[i].id != id
    ensures IndexOf(mapped, id).None? ==> forall i :: 0 <= i < |mapped| ==> mapped[i].id != id
  {
    if mapped != [] { FirstNamed(mapped[1..], id); }
  }

  lemma EvidenceIs(mapped: seq<MappedEvidence>, s: Stages, id: Text, stage: nat)
    ensures EvidenceAt(mapped, EvidenceUnits(mapped, s), id, stage) <==> NamedSurvives(mapped, s, id, stage)
  {
    FirstNamed(mapped, id);
    if IndexOf(mapped, id).Some? { UnitIs(mapped[IndexOf(mapped, id).value], s, stage); }
  }

  lemma FactIs(f: Fact, mapped: seq<MappedEvidence>, s: Stages, stage: nat)
    ensures FactAt(f, mapped, EvidenceUnits(mapped, s), stage) <==> FactSurvives(f, mapped, s, stage)
  {
    forall ids ensures AlternativeAt(mapped, EvidenceUnits(mapped, s), ids, stage) <==> AllSurvive(mapped, s, ids, stage) {
      forall k | 0 <= k < |ids| ensures EvidenceAt(mapped, EvidenceUnits(mapped, s), ids[k], stage) <==> NamedSurvives(mapped, s, ids[k], stage) {
        EvidenceIs(mapped, s, ids[k], stage);
      }
    }
  }

  lemma {:induction false} CountSnoc(units: seq<Unit>, u: Unit, p: Unit -> bool)
    ensures Count(units + [u], p) == Count(units, p) + if p(u) then 1 else 0
  {
    if units == [] {
      assert units + [u] == [u] && [u][1..] == [];
    } else {
      CountSnoc(units[1..], u, p);
      assert (units + [u])[1..] == units[1..] + [u];
    }
  }

  function Which(units: seq<Unit>, stage: nat): set<nat> { set i: nat | i < |units| && At(units[i], stage) }

  lemma {:induction false} ReachedIsCard(units: seq<Unit>, stage: nat)
    ensures Reached(units, stage) == |Which(units, stage)|
  {
    if units != [] {
      var n := |units| - 1;
      ReachedIsCard(units[..n], stage);
      CountSnoc(units[..n], units[n], u => At(u, stage));
      assert units == units[..n] + [units[n]];
      assert Which(units, stage) == Which(units[..n], stage) + if At(units[n], stage) then {n} else {};
    }
  }

  lemma CountsAre(units: seq<Unit>, stage: nat)
    requires StageCounts(units).Some? && stage < STAGES
    ensures StageCounts(units).value.total == |units|
    ensures NumberAt(StageCounts(units).value, stage) == |Which(units, stage)|
  {
    ReachedIsCard(units, stage);
  }

  /** The counts of evidence at every stage: exactly the mapped units that survive there. */
  lemma EvidenceCounted(mapped: seq<MappedEvidence>, facts: seq<Fact>, s: Stages, stage: nat)
    requires Measure(mapped, facts, s).Some? && stage < STAGES
    ensures var m := Measure(mapped, facts, s).value.evidence;
      m.total == |mapped| && NumberAt(m, stage) == |set i: nat | i < |mapped| && Survives(mapped[i], s, stage)|
  {
    var units := EvidenceUnits(mapped, s);
    CountsAre(units, stage);
    forall i: nat | i < |mapped| ensures At(units[i], stage) <==> Survives(mapped[i], s, stage) { UnitIs(mapped[i], s, stage); }
    assert Which(units, stage) == set i: nat | i < |mapped| && Survives(mapped[i], s, stage);
  }

  ghost function SurvivesAt(mapped: seq<MappedEvidence>, s: Stages, stage: nat): Fact -> bool {
    f => FactSurvives(f, mapped, s, stage)
  }

  /** The facts a condition holds of, and the critical ones. */
  ghost function Where(facts: seq<Fact>, p: Fact -> bool): set<nat> { set i: nat | i < |facts| && p(facts[i]) }

  ghost function CriticalWhere(facts: seq<Fact>, p: Fact -> bool): set<nat> { set i: nat | i < |facts| && facts[i].critical && p(facts[i]) }

  lemma FactUnitsCounted(facts: seq<Fact>, mapped: seq<MappedEvidence>, s: Stages, stage: nat)
    requires stage < STAGES && StageCounts(FactUnits(facts, mapped, EvidenceUnits(mapped, s))).Some?
    ensures var m := StageCounts(FactUnits(facts, mapped, EvidenceUnits(mapped, s))).value;
      m.total == |facts| && NumberAt(m, stage) == |Where(facts, SurvivesAt(mapped, s, stage))|
  {
    var units := FactUnits(facts, mapped, EvidenceUnits(mapped, s));
    CountsAre(units, stage);
    forall i: nat | i < |facts| ensures At(units[i], stage) <==> FactSurvives(facts[i], mapped, s, stage) {
      FactIs(facts[i], mapped, s, stage);
    }
    assert Which(units, stage) == Where(facts, SurvivesAt(mapped, s, stage));
  }

  lemma {:induction false} CriticalSnoc(facts: seq<Fact>, f: Fact)
    ensures Critical(facts + [f]) == Critical(facts) + if f.critical then [f] else []
  {
    if facts == [] {
      assert facts + [f] == [f] && [f][1..] == [];
    } else {
      CriticalSnoc(facts[1..], f);
      assert (facts + [f])[1..] == facts[1..] + [f];
    }
  }

  lemma WhereSnoc(facts: seq<Fact>, f: Fact, p: Fact -> bool)
    ensures |Where(facts + [f], p)| == |Where(facts, p)| + if p(f) then 1 else 0
  {
    var more, n := facts + [f], |facts|;
    forall i: nat ensures i in Where(more, p) <==> i in Where(facts, p) || (i == n && p(f)) {
      if i < n { assert more[i] == facts[i]; }
    }
    assert n !in Where(facts, p);
    if p(f) { assert Where(more, p) == Where(facts, p) + {n}; } else { assert Where(more, p) == Where(facts, p); }
  }

  lemma CriticalWhereSnoc(facts: seq<Fact>, f: Fact, p: Fact -> bool)
    ensures |CriticalWhere(facts + [f], p)| == |CriticalWhere(facts, p)| + if f.critical && p(f) then 1 else 0
  {
    var more, n := facts + [f], |facts|;
    forall i: nat ensures i in CriticalWhere(more, p) <==> i in CriticalWhere(facts, p) || (i == n && f.critical && p(f)) {
      if i < n { assert more[i] == facts[i]; }
    }
    assert n !in CriticalWhere(facts, p);
    if f.critical && p(f) {
      assert CriticalWhere(more, p) == CriticalWhere(facts, p) + {n};
    } else {
      assert CriticalWhere(more, p) == CriticalWhere(facts, p);
    }
  }

  lemma {:induction false} CriticalCard(facts: seq<Fact>, p: Fact -> bool)
    ensures |Where(Critical(facts), p)| == |CriticalWhere(facts, p)|
  {
    if facts != [] {
      var n := |facts| - 1;
      assert facts == facts[..n] + [facts[n]];
      CriticalCard(facts[..n], p);
      CriticalSnoc(facts[..n], facts[n]);
      assert Critical(facts) == if facts[n].critical then Critical(facts[..n]) + [facts[n]] else Critical(facts[..n]);
      CriticalWhereSnoc(facts[..n], facts[n], p);
      WhereSnoc(Critical(facts[..n]), facts[n], p);
    } else {
      assert Where(Critical(facts), p) == {} && CriticalWhere(facts, p) == {};
    }
  }

  lemma {:induction false} EveryWhere(facts: seq<Fact>, p: Fact -> bool)
    requires forall f :: p(f)
    ensures |Where(facts, p)| == |facts|
  {
    if facts != [] {
      var n := |facts| - 1;
      assert facts == facts[..n] + [facts[n]];
      EveryWhere(facts[..n], p);
      WhereSnoc(facts[..n], facts[n], p);
    }
  }

  function AnyFact(): Fact -> bool { f => true }

  /** The counts of all facts, and of the critical ones, at every stage. */
  lemma FactsCounted(mapped: seq<MappedEvidence>, facts: seq<Fact>, s: Stages, stage: nat)
    requires Measure(mapped, facts, s).Some? && stage < STAGES
    ensures var m := Measure(mapped, facts, s).value.facts;
      m.total == |facts| && NumberAt(m, stage) == |Where(facts, SurvivesAt(mapped, s, stage))|
    ensures var m := Measure(mapped, facts, s).value.critical;
      m.total == |CriticalWhere(facts, AnyFact())| && NumberAt(m, stage) == |CriticalWhere(facts, SurvivesAt(mapped, s, stage))|
  {
    FactUnitsCounted(facts, mapped, s, stage);
    FactUnitsCounted(Critical(facts), mapped, s, stage);
    CriticalCard(facts, SurvivesAt(mapped, s, stage));
    CriticalCard(facts, AnyFact());
    EveryWhere(Critical(facts), AnyFact());
  }

  /** Some evidence reaches a stage without the one before. */
  ghost predicate Skips(mapped: seq<MappedEvidence>, s: Stages) {
    exists i, stage :: 0 <= i < |mapped| && 0 < stage < STAGES && Survives(mapped[i], s, stage) && !Survives(mapped[i], s, stage - 1)
  }

  lemma SkipsIffNotMonotone(m: MappedEvidence, s: Stages)
    ensures !Monotone(EvidenceUnit(m, s)) <==> exists stage: nat :: 0 < stage < STAGES && Survives(m, s, stage) && !Survives(m, s, stage - 1)
  {
    var u := EvidenceUnit(m, s);
    forall stage: nat ensures At(u, stage) <==> Survives(m, s, stage) { UnitIs(m, s, stage); }
    if !Monotone(u) {
      var i :| 0 < i < |u| && u[i] && !u[i - 1];
      assert At(u, i) && !At(u, i - 1);
    }
    if stage: nat :| 0 < stage < STAGES && Survives(m, s, stage) && !Survives(m, s, stage - 1) {
      assert u[stage] && !u[stage - 1];
    }
  }

  /** Measuring is rejected exactly for evidence that reaches a stage without the one before. */
  lemma RejectedIffSkips(mapped: seq<MappedEvidence>, facts: seq<Fact>, s: Stages)
    ensures Measure(mapped, facts, s).None? <==> Skips(mapped, s)
  {
    var units := EvidenceUnits(mapped, s);
    forall i | 0 <= i < |mapped| ensures !Monotone(units[i]) <==>
        exists stage: nat :: 0 < stage < STAGES && Survives(mapped[i], s, stage) && !Survives(mapped[i], s, stage - 1)
    {
      SkipsIffNotMonotone(mapped[i], s);
    }
    if forall i :: 0 <= i < |units| ==> Monotone(units[i]) {
      forall f ensures Monotone(FactUnit(f, mapped, units)) { FactIsMonotone(f, mapped, units); }
    }
  }
}
