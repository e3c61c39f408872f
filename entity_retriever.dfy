/**
 * The discrete parts of the entity retriever (Core/Retriever/EntitiyRetriever.py):
 * one step of the agent-scored relation-pruning beam search, the endpoint set of a
 * list of relationships, the vector path's filter and rank, and the PageRank path's
 * empty-seed guard. The completion service's reply for a frontier entry enters as
 * the list of scores already parsed from it; graph lookups enter as functions.
 */
module EntityRetriever {
  import opened Wrappers

  /** The sentinel candidate of an entry with nothing to expand. */
  const Finish: string := "[FINISH]"

  /** `{"entity": .., "relation": .., "score": .., "head": ..}` */
  datatype FrontierEntry = FrontierEntry(entity: string, relation: string, score: real, head: bool)

  function KeyOf(e: FrontierEntry): (string, string) {
    (e.entity, e.relation)
  }

  /** One zipped row of the five accumulator lists. */
  datatype Row = Row(relation: string, candidate: string, topic: string, head: bool, score: real)

  /** A relations table: a `defaultdict(list)` from `(entity, relation)` to the
      candidate target entities. The beam step updates it in place. */
  class RelationsDict {
    var entries: map<(string, string), seq<string>>

    constructor (entries: map<(string, string), seq<string>>)
      ensures this.entries == entries
    {
      this.entries := entries;
    }

    /** `relations_dict[key]` on a `defaultdict(list)`: a missing key is inserted with
        an empty list, which is returned. */
    method Get(key: (string, string)) returns (value: seq<string>)
      modifies this
      ensures value == Lookup(old(entries), key)
      ensures entries == old(entries)[key := value]
    {
      value := if key in entries then entries[key] else [];
      entries := entries[key := value];
    }

    /** `relations_dict[key].append(x)`, made on the list the table holds. */
    method Append(key: (string, string), x: string) returns (value: seq<string>)
      requires key in entries
      modifies this
      ensures value == old(entries[key]) + [x]
      ensures entries == old(entries)[key := value]
    {
      value := entries[key] + [x];
      entries := entries[key := value];
    }
  }

  /** What `relations_dict[key]` reads: a missing key reads as the empty list. */
  function Lookup(d: map<(string, string), seq<string>>, key: (string, string)): seq<string> {
    if key in d then d[key] else []
  }

  // ---------------------------------------------------------------------------
  // One frontier entry
  // ---------------------------------------------------------------------------

  /** The scores of an entry with `n` candidates, given the scores parsed from the
      agent's reply. */
  function EntryScores(e: FrontierEntry, n: nat, parsed: seq<real>): (r: seq<real>)
    ensures |r| == if n == 0 then 1 else n
    ensures n == 0 ==> r == [0.0]
    ensures n == 1 ==> r == [e.score]
    ensures n >= 2 && |parsed| == n ==> r == parsed
    ensures n >= 2 && |parsed| != n ==> forall i :: 0 <= i < n ==> r[i] == 1.0 / (n as real)
  {
    if n == 1 then [e.score]
    else if n == 0 then [0.0]
    else if |parsed| != n then seq(n, _ => 1.0 / (n as real))
    else parsed
  }

  /** The candidate list after `candidate_list.append("[FINISH]")` on an empty one. */
  function WithSentinel(cands: seq<string>): (r: seq<string>)
    ensures r != []
  {
    if cands == [] then [Finish] else cands
  }

  /** The rows one entry adds: one per candidate, or the sentinel row. */
  function EntryRows(e: FrontierEntry, cands: seq<string>, parsed: seq<real>): (rows: seq<Row>)
    ensures |rows| == |WithSentinel(cands)|
  {
    var cs := WithSentinel(cands);
    var scores := EntryScores(e, |cands|, parsed);
    seq(|cs|, i requires 0 <= i < |cs| => Row(e.relation, cs[i], e.entity, e.head, scores[i]))
  }

  /** An entry's rows hold the sentinel only as the single zero-scored row of an empty
      lookup, unless the looked-up list itself holds it. */
  lemma EntryRowsSentinel(e: FrontierEntry, cands: seq<string>, parsed: seq<real>)
    requires Finish !in cands
    ensures forall r :: r in EntryRows(e, cands, parsed) && r.candidate == Finish ==> r.score == 0.0
  {
    var rows := EntryRows(e, cands, parsed);
    forall r | r in rows && r.candidate == Finish ensures r.score == 0.0 {
      var i :| 0 <= i < |rows| && rows[i] == r;
    }
  }

  /** The rows of the frontier loop and the relations table it leaves behind. */
  datatype Expansion = Expansion(rows: seq<Row>, dict: map<(string, string), seq<string>>)

  /** The frontier loop over `frontier`, left to right, from table `dict`; `replies[i]`
      holds the scores parsed from the agent's reply for entry `i`. Each lookup sees
      the table as the earlier entries left it. */
  function Expand(frontier: seq<FrontierEntry>, dict: map<(string, string), seq<string>>,
                  replies: seq<seq<real>>): Expansion
    requires |replies| >= |frontier|
    decreases |frontier|
  {
    if frontier == [] then Expansion([], dict)
    else
      var n := |frontier| - 1;
      var prev := Expand(frontier[..n], dict, replies);
      var e := frontier[n];
      var cands := Lookup(prev.dict, KeyOf(e));
      Expansion(prev.rows + EntryRows(e, cands, replies[n]), prev.dict[KeyOf(e) := WithSentinel(cands)])
  }

  /** The expansion of one more entry of the frontier. */
  lemma ExpandStep(frontier: seq<FrontierEntry>, dict: map<(string, string), seq<string>>,
                   replies: seq<seq<real>>, i: nat)
    requires i < |frontier| <= |replies|
    ensures var prev := Expand(frontier[..i], dict, replies);
      var cands := Lookup(prev.dict, KeyOf(frontier[i]));
      Expand(frontier[..i + 1], dict, replies)
        == Expansion(prev.rows + EntryRows(frontier[i], cands, replies[i]), prev.dict[KeyOf(frontier[i]) := WithSentinel(cands)])
  {
    assert frontier[..i + 1][..i] == frontier[..i];
  }

  /** The keys the frontier asks for. */
  function FrontierKeys(frontier: seq<FrontierEntry>): set<(string, string)>
    decreases |frontier|
  {
    if frontier == [] then {} else FrontierKeys(frontier[..|frontier| - 1]) + {KeyOf(frontier[|frontier| - 1])}
  }

  lemma {:induction false} FrontierKeysIndex(frontier: seq<FrontierEntry>, k: (string, string))
    requires k in FrontierKeys(frontier)
    ensures exists i :: 0 <= i < |frontier| && KeyOf(frontier[i]) == k
    decreases |frontier|
  {
    var n := |frontier| - 1;
    if k != KeyOf(frontier[n]) {
      FrontierKeysIndex(frontier[..n], k);
      var i :| 0 <= i < n && KeyOf(frontier[..n][i]) == k;
      assert frontier[..n][i] == frontier[i];
    }
  }

  /** The table after the loop: a key the frontier asks for maps to its old list, or to
      `["[FINISH]"]` if that list was missing or empty; every other entry is unchanged. */
  lemma {:induction false} ExpandTable(frontier: seq<FrontierEntry>, dict: map<(string, string), seq<string>>,
                                       replies: seq<seq<real>>)
    requires |replies| >= |frontier|
    ensures var d := Expand(frontier, dict, replies).dict;
      && d.Keys == dict.Keys + FrontierKeys(frontier)
      && (forall k :: k in FrontierKeys(frontier) ==> d[k] == WithSentinel(Lookup(dict, k)))
      && (forall k :: k in dict && k !in FrontierKeys(frontier) ==> d[k] == dict[k])
    decreases |frontier|
  {
    if frontier != [] {
      var n := |frontier| - 1;
      ExpandTable(frontier[..n], dict, replies);
    }
  }

  /** The row count: each entry adds one row per candidate it looked up, and one
      sentinel row when there was none. */
  lemma {:induction false} ExpandRowCount(frontier: seq<FrontierEntry>, dict: map<(string, string), seq<string>>,
                                          replies: seq<seq<real>>)
    requires |replies| >= |frontier|
    ensures |Expand(frontier, dict, replies).rows| >= |frontier|
    ensures frontier != [] ==>
      var n := |frontier| - 1;
      var prev := Expand(frontier[..n], dict, replies);
      var cands := Lookup(prev.dict, KeyOf(frontier[n]));
      |Expand(frontier, dict, replies).rows| == |prev.rows| + (if cands == [] then 1 else |cands|)
    decreases |frontier|
  {
    if frontier != [] {
      ExpandRowCount(frontier[..|frontier| - 1], dict, replies);
    }
  }

  // ---------------------------------------------------------------------------
  // Pruning: sorted(..., key=score, reverse=True), [:width], score != 0
  // ---------------------------------------------------------------------------

  predicate SortedDesc(s: seq<Row>) {
    forall i, j :: 0 <= i < j < |s| ==> s[i].score >= s[j].score
  }

  /** The rows of `s` whose score is `v`, in order. */
  function WithScore(s: seq<Row>, v: real): seq<Row> {
    if s == [] then [] else (if s[0].score == v then [s[0]] else []) + WithScore(s[1..], v)
  }

  /** Insert `x` before the first row whose score is not above its own. */
  function InsertDesc(x: Row, s: seq<Row>): seq<Row> {
    if s == [] || x.score >= s[0].score then [x] + s else [s[0]] + InsertDesc(x, s[1..])
  }

  /** Python's `sorted(rows, key=score, reverse=True)`: stable, descending. */
  function SortDesc(rows: seq<Row>): seq<Row> {
    if rows == [] then [] else InsertDesc(rows[0], SortDesc(rows[1..]))
  }

  lemma {:induction false} InsertDescElements(x: Row, s: seq<Row>)
    ensures multiset(InsertDesc(x, s)) == multiset(s) + multiset{x}
  {
    if s != [] && x.score < s[0].score {
      InsertDescElements(x, s[1..]);
      assert s == [s[0]] + s[1..];
    }
  }

  lemma {:induction false} InsertDescSorted(x: Row, s: seq<Row>)
    requires SortedDesc(s)
    ensures SortedDesc(InsertDesc(x, s))
  {
    if s != [] && x.score < s[0].score {
      InsertDescSorted(x, s[1..]);
      InsertDescBounded(x, s[1..], s[0].score);
    }
  }

  lemma {:induction false} InsertDescBounded(x: Row, s: seq<Row>, bound: real)
    requires x.score <= bound && forall i :: 0 <= i < |s| ==> s[i].score <= bound
    ensures forall i :: 0 <= i < |InsertDesc(x, s)| ==> InsertDesc(x, s)[i].score <= bound
  {
    if s != [] && x.score < s[0].score {
      InsertDescBounded(x, s[1..], bound);
    }
  }

  lemma {:induction false} InsertDescStable(x: Row, s: seq<Row>, v: real)
    ensures WithScore(InsertDesc(x, s), v) == (if x.score == v then [x] else []) + WithScore(s, v)
  {
    if s == [] || x.score >= s[0].score {
      assert ([x] + s)[1..] == s;
    } else {
      InsertDescStable(x, s[1..], v);
      InsertDescStableStep(x, s, v);
    }
  }

  /** The step of `InsertDescStable` past a row scored above `x`: at most one of the
      two scores is `v`, so the two rows cannot swap places among the rows of score `v`. */
  lemma InsertDescStableStep(x: Row, s: seq<Row>, v: real)
    requires s != [] && x.score < s[0].score
    requires WithScore(InsertDesc(x, s[1..]), v) == (if x.score == v then [x] else []) + WithScore(s[1..], v)
    ensures WithScore(InsertDesc(x, s), v) == (if x.score == v then [x] else []) + WithScore(s, v)
  {
    var r := InsertDesc(x, s[1..]);
    assert InsertDesc(x, s) == [s[0]] + r;
    WithScoreCons(s[0], r, v);
    WithScoreCons(s[0], s[1..], v);
    assert [s[0]] + s[1..] == s;
    if x.score == v {
      assert s[0].score != v;
      assert WithScore(InsertDesc(x, s), v) == WithScore(r, v);
      assert WithScore(s, v) == WithScore(s[1..], v);
    } else {
      assert WithScore(r, v) == WithScore(s[1..], v);
      assert [] + WithScore(s, v) == WithScore(s, v);
    }
  }

  lemma WithScoreCons(y: Row, t: seq<Row>, v: real)
    ensures WithScore([y] + t, v) == (if y.score == v then [y] else []) + WithScore(t, v)
  {
    assert ([y] + t)[1..] == t;
  }

  /** The ordering of the prune step: descending by score, a permutation of the rows,
      and stable — the rows of any one score keep their original order. */
  lemma {:induction false} SortDescCorrect(rows: seq<Row>)
    ensures SortedDesc(SortDesc(rows))
    ensures multiset(SortDesc(rows)) == multiset(rows)
    ensures forall v :: WithScore(SortDesc(rows), v) == WithScore(rows, v)
  {
    if rows != [] {
      SortDescCorrect(rows[1..]);
      InsertDescSorted(rows[0], SortDesc(rows[1..]));
      InsertDescElements(rows[0], SortDesc(rows[1..]));
      assert rows == [rows[0]] + rows[1..];
      forall v ensures WithScore(SortDesc(rows), v) == WithScore(rows, v) {
        InsertDescStable(rows[0], SortDesc(rows[1..]), v);
      }
    }
  }

  /** `[:width]`: the first `min(|s|, width)` rows. */
  function Take(s: seq<Row>, width: nat): (r: seq<Row>)
    ensures r <= s && |r| <= width
    ensures |r| == if |s| <= width then |s| else width
  {
    if |s| <= width then s else s[..width]
  }

  /** `[row for row in rows if score != 0]`: for every non-zero score, exactly the rows
      of that score, in their order, and no row scored zero. */
  function NonZero(s: seq<Row>): (r: seq<Row>)
    ensures |r| <= |s|
    ensures forall i :: 0 <= i < |r| ==> r[i].score != 0.0
    ensures multiset(r) <= multiset(s)
    ensures forall v :: v != 0.0 ==> WithScore(r, v) == WithScore(s, v)
  {
    if s == [] then []
    else
      var t := NonZero(s[1..]);
      NonZeroStep(s, t);
      (if s[0].score != 0.0 then [s[0]] else []) + t
  }

  /** The step of `NonZero`'s contract past the first row of `s`, given the contract
      for the filtered rest `t`. */
  lemma NonZeroStep(s: seq<Row>, t: seq<Row>)
    requires s != []
    requires |t| <= |s[1..]| && forall i :: 0 <= i < |t| ==> t[i].score != 0.0
    requires multiset(t) <= multiset(s[1..])
    requires forall v :: v != 0.0 ==> WithScore(t, v) == WithScore(s[1..], v)
    ensures var r := (if s[0].score != 0.0 then [s[0]] else []) + t;
      && |r| <= |s|
      && (forall i :: 0 <= i < |r| ==> r[i].score != 0.0)
      && multiset(r) <= multiset(s)
      && forall v :: v != 0.0 ==> WithScore(r, v) == WithScore(s, v)
  {
    assert s == [s[0]] + s[1..];
    WithScoreAppend(if s[0].score != 0.0 then [s[0]] else [], t);
    WithScoreAppendOne(s[0], s[1..]);
  }

  lemma {:induction false} WithScoreAppend(a: seq<Row>, b: seq<Row>)
    ensures forall v :: WithScore(a + b, v) == WithScore(a, v) + WithScore(b, v)
  {
    if a == [] {
      assert a + b == b;
    } else {
      WithScoreAppend(a[1..], b);
      assert a + b == [a[0]] + (a[1..] + b);
      WithScoreAppendOne(a[0], a[1..] + b);
      WithScoreAppendOne(a[0], a[1..]);
      assert a == [a[0]] + a[1..];
    }
  }

  lemma WithScoreAppendOne(y: Row, t: seq<Row>)
    ensures forall v :: WithScore([y] + t, v) == (if y.score == v then [y] else []) + WithScore(t, v)
  {
    assert ([y] + t)[1..] == t;
  }

  lemma {:induction false} NonZeroSorted(s: seq<Row>)
    requires SortedDesc(s)
    ensures SortedDesc(NonZero(s))
  {
    if s != [] {
      NonZeroSorted(s[1..]);
      NonZeroBounded(s[1..], s[0].score);
    }
  }

  lemma {:induction false} NonZeroBounded(s: seq<Row>, bound: real)
    requires forall i :: 0 <= i < |s| ==> s[i].score <= bound
    ensures forall i :: 0 <= i < |NonZero(s)| ==> NonZero(s)[i].score <= bound
  {
    if s != [] {
      NonZeroBounded(s[1..], bound);
    }
  }

  /** The survivors of the prune step. */
  function Prune(rows: seq<Row>, width: nat): seq<Row> {
    NonZero(Take(SortDesc(rows), width))
  }

  /** The survivors of the prune step are at most `width` rows, none scored zero,
      still in descending order, each one of the input rows; and they are exactly the
      non-zero rows among the first `width` of the stable descending ordering. */
  lemma PruneProperties(rows: seq<Row>, width: nat)
    ensures var p := Prune(rows, width);
      && |p| <= width
      && (forall i :: 0 <= i < |p| ==> p[i].score != 0.0)
      && SortedDesc(p)
      && multiset(p) <= multiset(rows)
      && forall v :: v != 0.0 ==> WithScore(p, v) == WithScore(Take(SortDesc(rows), width), v)
  {
    SortDescCorrect(rows);
    TakeSorted(SortDesc(rows), width);
    NonZeroSorted(Take(SortDesc(rows), width));
  }

  /** A prefix of a descending sequence is descending and holds some of its rows. */
  lemma TakeSorted(s: seq<Row>, width: nat)
    requires SortedDesc(s)
    ensures SortedDesc(Take(s, width)) && multiset(Take(s, width)) <= multiset(s)
  {
    var t := Take(s, width);
    forall i, j | 0 <= i < j < |t| ensures t[i].score >= t[j].score {
      assert t[i] == s[i] && t[j] == s[j];
    }
    assert s == t + s[|t|..];
  }

  // ---------------------------------------------------------------------------
  // The step's result
  // ---------------------------------------------------------------------------

  /** `(flag, cluster_chain_of_entities, candidates, relations, heads)` */
  datatype StepResult = StepResult(
    proceed: bool,
    chains: seq<seq<(string, string, string)>>,
    candidates: seq<string>,
    relations: seq<string>,
    heads: seq<bool>)

  /** The return value built from the surviving rows: "stop traversing" with empty
      lists when none survive; otherwise one reasoning path of `(topic, relation,
      candidate)` triples aligned index by index with the three returned lists. */
  function Outcome(kept: seq<Row>): (r: StepResult)
    ensures r.proceed <==> kept != []
    ensures !r.proceed ==> r == StepResult(false, [], [], [], [])
    ensures r.proceed ==>
      && |r.chains| == 1
      && |r.chains[0]| == |r.candidates| == |r.relations| == |r.heads| == |kept|
      && forall i :: 0 <= i < |kept| ==>
           && r.candidates[i] == kept[i].candidate
           && r.relations[i] == kept[i].relation
           && r.heads[i] == kept[i].head
           && r.chains[0][i] == (kept[i].topic, r.relations[i], r.candidates[i])
  {
    if kept == [] then StepResult(false, [], [], [], [])
    else
      var candidates := seq(|kept|, i requires 0 <= i < |kept| => kept[i].candidate);
      var relations := seq(|kept|, i requires 0 <= i < |kept| => kept[i].relation);
      var tops := seq(|kept|, i requires 0 <= i < |kept| => kept[i].topic);
      var heads := seq(|kept|, i requires 0 <= i < |kept| => kept[i].head);
      StepResult(true, [seq(|kept|, i requires 0 <= i < |kept| => (tops[i], relations[i], candidates[i]))],
                 candidates, relations, heads)
  }

  /** `zip(total_relations, total_candidates, total_topic_entities, total_head, total_scores)` */
  function Zip(relations: seq<string>, candidates: seq<string>, topics: seq<string>, heads: seq<bool>,
               scores: seq<real>): seq<Row>
    requires |relations| == |candidates| == |topics| == |heads| == |scores|
  {
    seq(|candidates|, j requires 0 <= j < |candidates| => Row(relations[j], candidates[j], topics[j], heads[j], scores[j]))
  }

  lemma ZipAppend(relations: seq<string>, candidates: seq<string>, topics: seq<string>, heads: seq<bool>,
                  scores: seq<real>, relations': seq<string>, candidates': seq<string>, topics': seq<string>,
                  heads': seq<bool>, scores': seq<real>)
    requires |relations| == |candidates| == |topics| == |heads| == |scores|
    requires |relations'| == |candidates'| == |topics'| == |heads'| == |scores'|
    ensures Zip(relations + relations', candidates + candidates', topics + topics', heads + heads', scores + scores')
      == Zip(relations, candidates, topics, heads, scores) + Zip(relations', candidates', topics', heads', scores')
  {
  }

  /** The scores of one entry's candidates: none looked up scores the sentinel 0, a
      single candidate inherits the entry's score, and otherwise the parsed reply is
      used when it has one score per candidate, else the scores are spread evenly. */
  method ScoreCandidates(entity: FrontierEntry, candidateList: seq<string>, reply: seq<real>)
    returns (scores: seq<real>)
    ensures scores == EntryScores(entity, |candidateList|, reply)
  {
    if |candidateList| == 1 {
      scores := [entity.score];
    } else if |candidateList| == 0 {
      scores := [0.0];
    } else {
      scores := reply;
      if |scores| != |candidateList| {
        scores := seq(|candidateList|, _ => 1.0 / (|candidateList| as real));
      }
    }
  }

  /** The body of the frontier loop for one entry: look its key up (inserting it when
      missing), score the candidates, append the sentinel to an empty list, and build the
      columns of the entry's rows. */
  method ExpandEntry(relationsDict: RelationsDict, entity: FrontierEntry, reply: seq<real>)
    returns (candidateList: seq<string>, scores: seq<real>, candidatesRelation: seq<string>,
             topicEntities: seq<string>, headNum: seq<bool>)
    modifies relationsDict
    ensures |candidatesRelation| == |candidateList| == |topicEntities| == |headNum| == |scores|
    ensures Zip(candidatesRelation, candidateList, topicEntities, headNum, scores)
      == EntryRows(entity, Lookup(old(relationsDict.entries), KeyOf(entity)), reply)
    ensures relationsDict.entries == old(relationsDict.entries)[KeyOf(entity) :=
      WithSentinel(Lookup(old(relationsDict.entries), KeyOf(entity)))]
  {
    var key := (entity.entity, entity.relation);
    candidateList := relationsDict.Get(key);
    ghost var looked := candidateList;
    scores := ScoreCandidates(entity, candidateList, reply);
    if |candidateList| == 0 {
      candidateList := relationsDict.Append(key, Finish);
    }
    var n := |candidateList|;
    candidatesRelation := seq(n, _ => entity.relation);
    topicEntities := seq(n, _ => entity.entity);
    headNum := seq(n, _ => entity.head);
    assert candidateList == WithSentinel(looked);
  }

  /** The beam step of `_find_relevant_entities_by_relation_agent`. */
  method FindRelevantEntitiesByRelationAgent(frontier: seq<FrontierEntry>, relationsDict: RelationsDict,
                                             replies: seq<seq<real>>, width: nat)
    returns (result: StepResult)
    requires |replies| == |frontier|
    modifies relationsDict
    ensures relationsDict.entries == Expand(frontier, old(relationsDict.entries), replies).dict
    ensures result == Outcome(Prune(Expand(frontier, old(relationsDict.entries), replies).rows, width))
  {
    var totalCandidates: seq<string> := [];
    var totalScores: seq<real> := [];
    var totalRelations: seq<string> := [];
    var totalTopicEntities: seq<string> := [];
    var totalHead: seq<bool> := [];
    ghost var dict0 := relationsDict.entries;

    for index := 0 to |frontier|
      invariant |totalCandidates| == |totalScores| == |totalRelations| == |totalTopicEntities| == |totalHead|
      invariant Zip(totalRelations, totalCandidates, totalTopicEntities, totalHead, totalScores)
        == Expand(frontier[..index], dict0, replies).rows
      invariant relationsDict.entries == Expand(frontier[..index], dict0, replies).dict
    {
      var candidateList, scores, candidatesRelation, topicEntities, headNum :=
        ExpandEntry(relationsDict, frontier[index], replies[index]);
      ExpandStep(frontier, dict0, replies, index);
      ZipAppend(totalRelations, totalCandidates, totalTopicEntities, totalHead, totalScores,
                candidatesRelation, candidateList, topicEntities, headNum, scores);
      totalCandidates := totalCandidates + candidateList;
      totalScores := totalScores + scores;
      totalRelations := totalRelations + candidatesRelation;
      totalTopicEntities := totalTopicEntities + topicEntities;
      totalHead := totalHead + headNum;
    }
    assert frontier[..|frontier|] == frontier;

    var zipped := Zip(totalRelations, totalCandidates, totalTopicEntities, totalHead, totalScores);
    var filteredList := NonZero(Take(SortDesc(zipped), width));
    result := Outcome(filteredList);
  }

  // ---------------------------------------------------------------------------
  // When the sentinel can survive the prune
  // ---------------------------------------------------------------------------

  predicate DistinctKeys(frontier: seq<FrontierEntry>) {
    forall i, j :: 0 <= i < j < |frontier| ==> KeyOf(frontier[i]) != KeyOf(frontier[j])
  }

  predicate NoSentinelIn(dict: map<(string, string), seq<string>>) {
    forall k :: k in dict ==> Finish !in dict[k]
  }

  /** With pairwise distinct keys and no sentinel already in the table, every sentinel
      row is scored zero, so the prune step never returns one. */
  lemma {:induction false} SentinelRowsScoreZero(frontier: seq<FrontierEntry>, dict: map<(string, string), seq<string>>,
                                                 replies: seq<seq<real>>)
    requires |replies| >= |frontier|
    requires DistinctKeys(frontier) && NoSentinelIn(dict)
    ensures forall r :: r in Expand(frontier, dict, replies).rows && r.candidate == Finish ==> r.score == 0.0
    decreases |frontier|
  {
    if frontier != [] {
      var n := |frontier| - 1;
      var prefix := frontier[..n];
      assert DistinctKeys(prefix) by {
        forall i, j | 0 <= i < j < |prefix| ensures KeyOf(prefix[i]) != KeyOf(prefix[j]) {
          assert prefix[i] == frontier[i] && prefix[j] == frontier[j];
        }
      }
      SentinelRowsScoreZero(prefix, dict, replies);
      ExpandTable(prefix, dict, replies);
      var e := frontier[n];
      if KeyOf(e) in FrontierKeys(prefix) {
        FrontierKeysIndex(prefix, KeyOf(e));
        assert false;
      }
      var prev := Expand(prefix, dict, replies);
      assert Lookup(prev.dict, KeyOf(e)) == Lookup(dict, KeyOf(e));
      EntryRowsSentinel(e, Lookup(dict, KeyOf(e)), replies[n]);
    }
  }

  /** Rows whose sentinel rows are all scored zero lose them all to the prune step. */
  lemma PruneDropsZeroSentinel(rows: seq<Row>, width: nat)
    requires forall r :: r in rows && r.candidate == Finish ==> r.score == 0.0
    ensures Finish !in Outcome(Prune(rows, width)).candidates
  {
    PruneProperties(rows, width);
    var p := Prune(rows, width);
    forall i | 0 <= i < |p| ensures p[i].candidate != Finish {
      assert p[i] in multiset(rows);
    }
    var out := Outcome(p);
    forall i | 0 <= i < |out.candidates| ensures out.candidates[i] != Finish {
    }
  }

  /** With pairwise distinct keys and no sentinel already in the table, the prune
      step never returns the sentinel. */
  lemma PruneDropsSentinel(frontier: seq<FrontierEntry>, dict: map<(string, string), seq<string>>,
                           replies: seq<seq<real>>, width: nat)
    requires |replies| >= |frontier|
    requires DistinctKeys(frontier) && NoSentinelIn(dict)
    ensures Finish !in Outcome(Prune(Expand(frontier, dict, replies).rows, width)).candidates
  {
    SentinelRowsScoreZero(frontier, dict, replies);
    PruneDropsZeroSentinel(Expand(frontier, dict, replies).rows, width);
  }

  /** The rows of a frontier that asks twice for one missing key: a zero-scored
      sentinel row, then a sentinel row with the entry's own score. */
  lemma RepeatedKeyRows(e: FrontierEntry)
    ensures Expand([e, e], map[], [[], []]).rows ==
      [Row(e.relation, Finish, e.entity, e.head, 0.0), Row(e.relation, Finish, e.entity, e.head, e.score)]
  {
    assert [e, e][..1] == [e];
    assert [e][..0] == [];
    assert Expand([], map[], [[], []]) == Expansion([], map[]);
    assert EntryRows(e, [], []) == [Row(e.relation, Finish, e.entity, e.head, 0.0)];
    var first := Expand([e], map[], [[], []]);
    assert first.dict == map[KeyOf(e) := [Finish]];
    assert EntryRows(e, [Finish], []) == [Row(e.relation, Finish, e.entity, e.head, e.score)];
  }

  /** The prune step on a zero-scored row followed by a positively scored one keeps
      just the latter. */
  lemma PruneZeroThenScored(zero: Row, scored: Row, width: nat)
    requires zero.score == 0.0 && scored.score > 0.0 && width >= 1
    ensures Prune([zero, scored], width) == [scored]
  {
    assert SortDesc([scored]) == [scored] by {
      assert SortDesc([scored][1..]) == [];
    }
    assert [zero, scored][1..] == [scored];
    assert InsertDesc(zero, [scored]) == [scored, zero] by {
      assert [scored][1..] == [];
    }
    var t := Take([scored, zero], width);
    assert t == [scored] || t == [scored, zero];
    assert NonZero(t) == [scored];
  }

  /** A frontier that asks twice for one missing `(entity, relation)` key, with a
      positive score: the first lookup leaves `["[FINISH]"]` in the table, the second
      finds that single candidate and gives it the entry's own score, and the
      sentinel survives the prune step. */
  lemma RepeatedKeyKeepsSentinel(e: FrontierEntry, width: nat)
    requires e.score > 0.0 && width >= 1
    ensures var out := Outcome(Prune(Expand([e, e], map[], [[], []]).rows, width));
      out.proceed && out.candidates == [Finish]
  {
    var scored := Row(e.relation, Finish, e.entity, e.head, e.score);
    RepeatedKeyRows(e);
    PruneZeroThenScored(Row(e.relation, Finish, e.entity, e.head, 0.0), scored, width);
    assert Outcome([scored]).candidates == [Finish];
  }

  /** The evidently intended frontier loop: an entry with no candidates gets the
      sentinel row without writing it back into the table, so each lookup sees the
      table the caller passed in. */
  function ExpandReadOnly(frontier: seq<FrontierEntry>, dict: map<(string, string), seq<string>>,
                          replies: seq<seq<real>>): seq<Row>
    requires |replies| >= |frontier|
    decreases |frontier|
  {
    if frontier == [] then []
    else
      var n := |frontier| - 1;
      ExpandReadOnly(frontier[..n], dict, replies) + EntryRows(frontier[n], Lookup(dict, KeyOf(frontier[n])), replies[n])
  }

  /** For the read-only loop, every sentinel row is scored zero whenever the table
      holds no sentinel, whatever keys the frontier repeats. */
  lemma {:induction false} ReadOnlySentinelRowsScoreZero(frontier: seq<FrontierEntry>, dict: map<(string, string), seq<string>>,
                                                         replies: seq<seq<real>>)
    requires |replies| >= |frontier|
    requires NoSentinelIn(dict)
    ensures forall r :: r in ExpandReadOnly(frontier, dict, replies) && r.candidate == Finish ==> r.score == 0.0
    decreases |frontier|
  {
    if frontier != [] {
      var n := |frontier| - 1;
      ReadOnlySentinelRowsScoreZero(frontier[..n], dict, replies);
      EntryRowsSentinel(frontier[n], Lookup(dict, KeyOf(frontier[n])), replies[n]);
    }
  }

  /** So the read-only loop's prune step never returns the sentinel. */
  lemma ReadOnlyPruneDropsSentinel(frontier: seq<FrontierEntry>, dict: map<(string, string), seq<string>>,
                                   replies: seq<seq<real>>, width: nat)
    requires |replies| >= |frontier|
    requires NoSentinelIn(dict)
    ensures Finish !in Outcome(Prune(ExpandReadOnly(frontier, dict, replies), width)).candidates
  {
    ReadOnlySentinelRowsScoreZero(frontier, dict, replies);
    PruneDropsZeroSentinel(ExpandReadOnly(frontier, dict, replies), width);
  }

  // ---------------------------------------------------------------------------
  // _find_relevant_entities_by_relationships
  // ---------------------------------------------------------------------------

  datatype Edge = Edge(srcId: string, tgtId: string)

  /** An entity record: name, description (from the node) and its degree as rank. */
  datatype EntityRecord = EntityRecord(entityName: string, description: string, rank: nat)

  predicate IsEndpoint(edges: seq<Edge>, x: string) {
    exists e :: e in edges && (e.srcId == x || e.tgtId == x)
  }

  /** The loop that collects every `src_id` and `tgt_id` into a set. */
  method EndpointNames(edges: seq<Edge>) returns (names: set<string>)
    ensures forall x :: x in names <==> IsEndpoint(edges, x)
  {
    names := {};
    for i := 0 to |edges|
      invariant forall x :: x in names <==> IsEndpoint(edges[..i], x)
    {
      names := names + {edges[i].srcId};
      names := names + {edges[i].tgtId};
      assert edges[..i + 1] == edges[..i] + [edges[i]];
    }
    assert edges[..|edges|] == edges;
  }

  /** One record per endpoint, in the set's iteration order, each carrying the node's
      description and its degree as rank. */
  method FindRelevantEntitiesByRelationships(edges: seq<Edge>, description: string -> string, degree: string -> nat)
    returns (records: seq<EntityRecord>)
    ensures forall x :: (exists i :: 0 <= i < |records| && records[i].entityName == x) <==> IsEndpoint(edges, x)
    ensures forall i, j :: 0 <= i < j < |records| ==> records[i].entityName != records[j].entityName
    ensures forall i :: 0 <= i < |records| ==>
      records[i] == EntityRecord(records[i].entityName, description(records[i].entityName), degree(records[i].entityName))
  {
    var names := EndpointNames(edges);
    records := [];
    var rest := names;
    ghost var seen: set<string> := {};
    while rest != {}
      invariant rest == names - seen && seen <= names
      invariant forall x :: x in seen <==> exists i :: 0 <= i < |records| && records[i].entityName == x
      invariant forall i, j :: 0 <= i < j < |records| ==> records[i].entityName != records[j].entityName
      invariant forall i :: 0 <= i < |records| ==>
        records[i] == EntityRecord(records[i].entityName, description(records[i].entityName), degree(records[i].entityName))
      decreases rest
    {
      var k :| k in rest;
      ghost var before := records;
      records := records + [EntityRecord(k, description(k), degree(k))];
      assert forall i :: 0 <= i < |before| ==> records[i] == before[i];
      assert records[|before|].entityName == k;
      rest := rest - {k};
      seen := seen + {k};
    }
  }

  // ---------------------------------------------------------------------------
  // _find_relevant_entities_vdb and _find_relevant_entities_by_ppr
  // ---------------------------------------------------------------------------

  /** An entity record as the vector index returns it. */
  datatype NodeData = NodeData(entityName: string, description: string)

  function Ranked(n: NodeData, degree: string -> nat): EntityRecord {
    EntityRecord(n.entityName, n.description, degree(n.entityName))
  }

  /** The vector path as written: a disabled vector index (the failing assert) and an
      empty retrieval give no result; the degrees are requested for every entry
      before the `None` filter runs, so an absent entry raises and the handler
      turns the whole answer into no result. */
  function FindRelevantEntitiesVdbAsWritten(useEntitiesVdb: bool, nodes: seq<Option<NodeData>>,
                                            degree: string -> nat): (r: Option<seq<EntityRecord>>)
    ensures r.Some? <==> useEntitiesVdb && |nodes| > 0 && forall i :: 0 <= i < |nodes| ==> nodes[i].Some?
    ensures r.Some? ==> |r.value| == |nodes|
    ensures r.Some? ==> forall i :: 0 <= i < |nodes| ==> r.value[i] == Ranked(nodes[i].value, degree)
  {
    if !useEntitiesVdb then None
    else if |nodes| == 0 then None
    else if exists i :: 0 <= i < |nodes| && nodes[i].None? then None
    else Some(seq(|nodes|, i requires 0 <= i < |nodes| => Ranked(nodes[i].value, degree)))
  }

  /** A retrieval with one absent entry gives no result at all. */
  lemma AbsentEntryLosesAll(n: NodeData, degree: string -> nat)
    ensures FindRelevantEntitiesVdbAsWritten(true, [Some(n), None], degree) == None
  {
    assert [Some(n), None][1].None?;
  }

  /** `[n for n in nodes if n is not None]` */
  function Present(nodes: seq<Option<NodeData>>): seq<NodeData> {
    if nodes == [] then []
    else (if nodes[0].Some? then [nodes[0].value] else []) + Present(nodes[1..])
  }

  /** The vector path as intended: absent entries are dropped, not substituted; the
      others keep their order and carry their degree as rank. */
  function FindRelevantEntitiesVdb(useEntitiesVdb: bool, nodes: seq<Option<NodeData>>,
                                   degree: string -> nat): (r: Option<seq<EntityRecord>>)
    ensures r.Some? <==> useEntitiesVdb && |nodes| > 0
    ensures r.Some? ==> |r.value| == |Present(nodes)|
    ensures r.Some? ==> forall i :: 0 <= i < |r.value| ==> r.value[i] == Ranked(Present(nodes)[i], degree)
  {
    if !useEntitiesVdb then None
    else if |nodes| == 0 then None
    else
      var present := Present(nodes);
      Some(seq(|present|, i requires 0 <= i < |present| => Ranked(present[i], degree)))
  }

  /** The entries the intended vector path keeps are exactly the present ones, in
      their retrieval order; with none absent it agrees with the path as written. */
  lemma {:induction false} PresentKeepsPresent(nodes: seq<Option<NodeData>>)
    ensures forall n :: n in Present(nodes) <==> Some(n) in nodes
    ensures (forall i :: 0 <= i < |nodes| ==> nodes[i].Some?) ==>
      |Present(nodes)| == |nodes| && forall i :: 0 <= i < |nodes| ==> Present(nodes)[i] == nodes[i].value
  {
    if nodes != [] {
      PresentKeepsPresent(nodes[1..]);
      assert nodes == [nodes[0]] + nodes[1..];
    }
  }

  /** The PageRank path: an empty seed list short-circuits to no result; otherwise the
      propagation (left abstract) runs on the seeds. */
  function FindRelevantEntitiesByPpr<S, R>(seeds: seq<S>, run: seq<S> -> R): (r: Option<R>)
    ensures r.None? <==> |seeds| == 0
    ensures r.Some? ==> r.value == run(seeds)
  {
    if |seeds| == 0 then None else Some(run(seeds))
  }
}
