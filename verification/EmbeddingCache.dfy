/** The two-level cache in front of Tier 2 inference: embeddings observed this run, by input hash, and
    rows persisted under a caller's key, matched to the input they were recorded from. */
module EmbeddingCache {
  import opened Prelude
  import opened TokenText

  const CAPACITY: nat := 64

  type Embedding = seq<real>

  // ----- The embedded string ------------------------------------------------

  function EmbeddingInput(appName: string, windowTitle: string): string {
    var app, title := Normalize(appName), Normalize(windowTitle);
    if title == "" then app else app + " [SEP] " + title
  }

  function NotBracket(): char -> bool { (c: char) => c != '[' }

  lemma {:induction false} JoinHasNoBracket(ts: seq<string>)
    requires AllTokens(ts)
    ensures forall i :: 0 <= i < |Join(ts)| ==> Join(ts)[i] != '['
  {
    if |ts| >= 1 {
      assert IsToken(ts[0]);
    }
    if |ts| > 1 {
      JoinHasNoBracket(ts[1..]);
    }
  }

  lemma NormalizedHasNoBracket(s: string)
    ensures forall i :: 0 <= i < |Normalize(s)| ==> Normalize(s)[i] != '['
  {
    NormalizeIsJoin(s);
    TokensAreTokens(s);
    JoinHasNoBracket(Tokens(s));
  }

  /** The separator stands where the first bracket does. */
  lemma BracketPlace(appName: string, windowTitle: string)
    ensures var input, app := EmbeddingInput(appName, windowTitle), Normalize(appName);
      if Normalize(windowTitle) == "" then Span(input, NotBracket()) == |input| && input == app
      else Span(input, NotBracket()) == |app| + 1 < |input|
           && input[..|app|] == app && input[|app| + 7..] == Normalize(windowTitle)
  {
    NormalizedHasNoBracket(appName);
    NormalizedHasNoBracket(windowTitle);
    var input, app := EmbeddingInput(appName, windowTitle), Normalize(appName);
    if Normalize(windowTitle) == "" {
      SpanAt(input, NotBracket(), |input|);
    } else {
      assert input[..|app|] == app && input[|app|] == ' ' && input[|app| + 1] == '[';
      SpanAt(input, NotBracket(), |app| + 1);
    }
  }

  /** Windows embed alike exactly when their names and titles normalize alike. */
  lemma InputIdentifiesWindow(appName: string, windowTitle: string, appName': string, windowTitle': string)
    ensures EmbeddingInput(appName, windowTitle) == EmbeddingInput(appName', windowTitle') <==>
            Normalize(appName) == Normalize(appName') && Normalize(windowTitle) == Normalize(windowTitle')
  {
    BracketPlace(appName, windowTitle);
    BracketPlace(appName', windowTitle');
  }

  // ----- The cache as a state machine ---------------------------------------

  /** Inference and hashing, as deterministic functions; and whether a learning store is attached. */
  datatype Model = Model(embed: string -> Embedding, hash: string -> string, hasStore: bool)

  /** A poisoned lock is never read again, whatever the map behind it holds. */
  datatype State = State(
    observed: map<string, Embedding>,
    recorded: map<string, string>,
    rows: map<string, Embedding>,
    observedPoisoned: bool,
    recordedPoisoned: bool)

  function Remember<V>(m: map<string, V>, key: string, value: V): map<string, V> {
    (if |m| >= CAPACITY then map[] else m)[key := value]
  }

  predicate RowHoldsInput(m: Model, s: State, key: string, input: string) {
    !s.recordedPoisoned && key in s.recorded && s.recorded[key] == m.hash(input)
  }

  /** The embedding `observe` ends up with: the row, if it was recorded from this input, else inference. */
  function ObservedEmbedding(m: Model, s: State, key: string, input: string, infers: bool, readable: bool)
    : Option<Embedding>
  {
    if RowHoldsInput(m, s, key, input) && m.hasStore && readable && key in s.rows then Some(s.rows[key])
    else if infers then Some(m.embed(input))
    else None
  }

  function ObserveStep(m: Model, s: State, key: string, input: string, infers: bool, readable: bool, writable: bool,
                       evicted: set<string>): State
  {
    var found := ObservedEmbedding(m, s, key, input, infers, readable);
    if found.None? then s
    else
      var hash := m.hash(input);
      var seen := if s.observedPoisoned then s else s.(observed := Remember(s.observed, hash, found.value));
      if !m.hasStore || !writable then seen
      else
        var written := seen.(rows := s.rows[key := found.value] - evicted);
        if s.recordedPoisoned then written else written.(recorded := Remember(s.recorded, key, hash))
  }

  function ClassifyEmbedding(m: Model, s: State, input: string, infers: bool): Option<Embedding> {
    if !s.observedPoisoned && m.hash(input) in s.observed then Some(s.observed[m.hash(input)])
    else if infers then Some(m.embed(input))
    else None
  }

  function ClassifyStep(m: Model, s: State, input: string): State {
    if s.observedPoisoned then s else s.(observed := s.observed - {m.hash(input)})
  }

  /** One serialized call, or something that happens to the store or a lock in between. Inference may fail
      or time out; the store may refuse a read or a write, and a write may evict old rows. */
  datatype Op =
    | Observe(key: string, input: string, infers: bool, readable: bool, writable: bool, evicted: set<string>)
    | Classify(input: string, infers: bool)
    | DeleteRows(keys: set<string>)
    | PoisonObserved(left: map<string, Embedding>)
    | PoisonRecorded(leftRecorded: map<string, string>)

  function Step(m: Model, s: State, op: Op): State {
    match op
    case Observe(key, input, infers, readable, writable, evicted) =>
      ObserveStep(m, s, key, input, infers, readable, writable, evicted)
    case Classify(input, _) => ClassifyStep(m, s, input)
    case DeleteRows(keys) => s.(rows := s.rows - keys)
    case PoisonObserved(left) => s.(observed := left, observedPoisoned := true)
    case PoisonRecorded(left) => s.(recorded := left, recordedPoisoned := true)
  }

  function Run(m: Model, s: State, ops: seq<Op>): State {
    if ops == [] then s else Step(m, Run(m, s, ops[..|ops| - 1]), ops[|ops| - 1])
  }

  /** A fresh process: nothing in memory, whatever rows an earlier one left. */
  function Initial(rows: map<string, Embedding>): State {
    State(map[], map[], rows, false, false)
  }

  // ----- What every run keeps -----------------------------------------------

  // `inputs` are the strings in play: those of the run and the one classified after it.

  /** `e` is the embedding of every input with this hash. */
  ghost predicate IsEmbeddingOf(m: Model, inputs: iset<string>, hash: string, e: Embedding) {
    forall input :: input in inputs && m.hash(input) == hash ==> m.embed(input) == e
  }

  /** Of these inputs, those that hash alike embed alike; that no two of them collide is enough. */
  ghost predicate HashFaithful(m: Model, inputs: iset<string>) {
    forall x, y :: x in inputs && y in inputs && m.hash(x) == m.hash(y) ==> m.embed(x) == m.embed(y)
  }

  ghost predicate ObservedHold(m: Model, inputs: iset<string>, observed: map<string, Embedding>) {
    && |observed| <= CAPACITY
    && forall h :: h in observed ==> IsEmbeddingOf(m, inputs, h, observed[h])
  }

  ghost predicate RowsHold(
    m: Model, inputs: iset<string>, recorded: map<string, string>, rows: map<string, Embedding>)
  {
    && |recorded| <= CAPACITY
    && forall key :: key in recorded && key in rows ==> IsEmbeddingOf(m, inputs, recorded[key], rows[key])
  }

  ghost predicate Consistent(m: Model, inputs: iset<string>, s: State) {
    && (!s.observedPoisoned ==> ObservedHold(m, inputs, s.observed))
    && (!s.recordedPoisoned ==> RowsHold(m, inputs, s.recorded, s.rows))
  }

  /** The run embeds these inputs only. */
  ghost predicate Names(op: Op, inputs: iset<string>) {
    && (op.Observe? ==> op.input in inputs)
    && (op.Classify? ==> op.input in inputs)
  }

  ghost predicate RunsOn(ops: seq<Op>, inputs: iset<string>) {
    forall i :: 0 <= i < |ops| ==> Names(ops[i], inputs)
  }

  lemma RememberFits<V>(m: map<string, V>, key: string, value: V)
    requires |m| <= CAPACITY
    ensures |Remember(m, key, value)| <= CAPACITY
  {
    var base := if |m| >= CAPACITY then map[] else m;
    assert base[key := value].Keys == base.Keys + {key};
    assert |base.Keys + {key}| <= |base.Keys| + 1;
  }

  lemma RemoveShrinks<V>(m: map<string, V>, key: string)
    ensures |m - {key}| <= |m|
  {
    assert (m - {key}).Keys == m.Keys - {key};
    SubsetSize(m.Keys - {key}, m.Keys);
  }

  lemma SubsetSize(a: set<string>, b: set<string>)
    requires a <= b
    ensures |a| <= |b|
  {
    assert b == a + (b - a);
  }

  lemma FoundIsEmbedding(
    m: Model, inputs: iset<string>, s: State, key: string, input: string, infers: bool, readable: bool)
    requires HashFaithful(m, inputs) && Consistent(m, inputs, s) && input in inputs
    ensures var found := ObservedEmbedding(m, s, key, input, infers, readable);
      found.Some? ==> found.value == m.embed(input) && IsEmbeddingOf(m, inputs, m.hash(input), found.value)
  {
    if RowHoldsInput(m, s, key, input) && key in s.rows {
      assert IsEmbeddingOf(m, inputs, s.recorded[key], s.rows[key]);
    }
  }

  lemma RememberObserved(m: Model, inputs: iset<string>, observed: map<string, Embedding>, hash: string, e: Embedding)
    requires ObservedHold(m, inputs, observed) && IsEmbeddingOf(m, inputs, hash, e)
    ensures ObservedHold(m, inputs, Remember(observed, hash, e))
  {
    RememberFits(observed, hash, e);
  }

  lemma RememberRow(
    m: Model, inputs: iset<string>, recorded: map<string, string>, rows: map<string, Embedding>,
    key: string, hash: string, e: Embedding, evicted: set<string>)
    requires RowsHold(m, inputs, recorded, rows) && IsEmbeddingOf(m, inputs, hash, e)
    ensures RowsHold(m, inputs, Remember(recorded, key, hash), rows[key := e] - evicted)
  {
    RememberFits(recorded, key, hash);
  }

  lemma ObserveConsistent(m: Model, inputs: iset<string>, s: State, key: string, input: string,
                          infers: bool, readable: bool, writable: bool, evicted: set<string>)
    requires HashFaithful(m, inputs) && Consistent(m, inputs, s) && input in inputs
    ensures Consistent(m, inputs, ObserveStep(m, s, key, input, infers, readable, writable, evicted))
  {
    FoundIsEmbedding(m, inputs, s, key, input, infers, readable);
    var found := ObservedEmbedding(m, s, key, input, infers, readable);
    if found.Some? {
      if !s.observedPoisoned {
        RememberObserved(m, inputs, s.observed, m.hash(input), found.value);
      }
      if !s.recordedPoisoned {
        RememberRow(m, inputs, s.recorded, s.rows, key, m.hash(input), found.value, evicted);
      }
    }
  }

  lemma StepConsistent(m: Model, inputs: iset<string>, s: State, op: Op)
    requires HashFaithful(m, inputs) && Consistent(m, inputs, s) && Names(op, inputs)
    ensures Consistent(m, inputs, Step(m, s, op))
  {
    match op
    case Observe(key, input, infers, readable, writable, evicted) =>
      ObserveConsistent(m, inputs, s, key, input, infers, readable, writable, evicted);
    case Classify(input, _) =>
      RemoveShrinks(s.observed, m.hash(input));
    case DeleteRows(_) =>
    case PoisonObserved(_) =>
    case PoisonRecorded(_) =>
  }

  /** Over every run both maps stay within 64 entries, every observed entry holds the embedding of the
      input it names, and so does every recorded row that is still there. */
  lemma {:induction false} RunConsistent(m: Model, inputs: iset<string>, s: State, ops: seq<Op>)
    requires HashFaithful(m, inputs) && Consistent(m, inputs, s) && RunsOn(ops, inputs)
    ensures Consistent(m, inputs, Run(m, s, ops))
  {
    if ops != [] {
      RunConsistent(m, inputs, s, ops[..|ops| - 1]);
      StepConsistent(m, inputs, Run(m, s, ops[..|ops| - 1]), ops[|ops| - 1]);
    }
  }

  /** Whatever `classify` is handed for an input, it is that input's own embedding, and something is handed
      over whenever inference would have answered. */
  ghost predicate Agrees(m: Model, s: State, input: string, infers: bool) {
    var e := ClassifyEmbedding(m, s, input, infers);
    (e.Some? ==> e.value == m.embed(input)) && (infers ==> e.Some?)
  }

  ghost predicate AgreesWithInference(m: Model, inputs: iset<string>, s: State) {
    forall input, infers :: input in inputs ==> Agrees(m, s, input, infers)
  }

  lemma ConsistentAgrees(m: Model, inputs: iset<string>, s: State)
    requires Consistent(m, inputs, s)
    ensures AgreesWithInference(m, inputs, s)
  {
    forall input, infers | input in inputs ensures Agrees(m, s, input, infers) {
      if !s.observedPoisoned && m.hash(input) in s.observed {
        assert IsEmbeddingOf(m, inputs, m.hash(input), s.observed[m.hash(input)]);
      }
    }
  }

  /** Main result: for any set of inputs, from a fresh process and over every serialized run on them, a cached
      classification is the one direct inference gives, exactly when those of them that hash alike embed
      alike. */
  lemma {:induction false} CacheAgreesIffHashFaithful(m: Model, inputs: iset<string>, rows: map<string, Embedding>)
    ensures (forall ops :: RunsOn(ops, inputs) ==> AgreesWithInference(m, inputs, Run(m, Initial(rows), ops)))
            <==> HashFaithful(m, inputs)
  {
    if HashFaithful(m, inputs) {
      forall ops | RunsOn(ops, inputs) ensures AgreesWithInference(m, inputs, Run(m, Initial(rows), ops)) {
        RunConsistent(m, inputs, Initial(rows), ops);
        ConsistentAgrees(m, inputs, Run(m, Initial(rows), ops));
      }
    } else {
      var x, y :| x in inputs && y in inputs && m.hash(x) == m.hash(y) && m.embed(x) != m.embed(y);
      CollisionMisleads(m, inputs, rows, x, y);
    }
  }

  lemma {:induction false} CollisionMisleads(
    m: Model, inputs: iset<string>, rows: map<string, Embedding>, x: string, y: string)
    requires x in inputs && y in inputs && m.hash(x) == m.hash(y) && m.embed(x) != m.embed(y)
    ensures exists ops :: RunsOn(ops, inputs) && !AgreesWithInference(m, inputs, Run(m, Initial(rows), ops))
  {
    var ops := [Observe("", x, true, false, false, {})];
    assert ops[..0] == [];
    assert Run(m, Initial(rows), []) == Initial(rows);
    var s := Run(m, Initial(rows), ops);
    assert s.observed[m.hash(y)] == m.embed(x);
    assert !Agrees(m, s, y, false);
    assert RunsOn(ops, inputs);
  }

  // ----- What the cache is for ----------------------------------------------

  predicate IsHealthy(s: State) { !s.observedPoisoned && !s.recordedPoisoned }

  /** An observation that infers, and is stored, is there for the next call: in memory by its input, in the
      store by its key, and on record as that input's. */
  lemma ObservationIsKept(m: Model, s: State, key: string, input: string, readable: bool, evicted: set<string>)
    requires IsHealthy(s) && !RowHoldsInput(m, s, key, input) && key !in evicted && m.hasStore
    ensures var next := Step(m, s, Observe(key, input, true, readable, true, evicted));
      && m.hash(input) in next.observed && next.observed[m.hash(input)] == m.embed(input)
      && key in next.rows && next.rows[key] == m.embed(input)
      && RowHoldsInput(m, next, key, input)
  {
  }

  /** Classifying right after an observation needs no inference, and takes the entry out. */
  lemma ClassifyUsesObservation(m: Model, s: State, key: string, input: string, readable: bool, writable: bool,
                                evicted: set<string>)
    requires IsHealthy(s) && !RowHoldsInput(m, s, key, input)
    ensures var next := Step(m, s, Observe(key, input, true, readable, writable, evicted));
      && ClassifyEmbedding(m, next, input, false) == Some(m.embed(input))
      && m.hash(input) !in Step(m, next, Classify(input, false)).observed
  {
  }

  /** A row on record as this input's is read back with no inference; a row recorded from another input under
      the same key is not. */
  lemma RowIsReadForItsInput(m: Model, s: State, key: string, input: string)
    requires !s.recordedPoisoned && key in s.recorded && key in s.rows && m.hasStore
    ensures ObservedEmbedding(m, s, key, input, false, true) ==
            if s.recorded[key] == m.hash(input) then Some(s.rows[key]) else None
  {
  }

  /** A failed inference changes nothing, and a refused write leaves the store and the record as they were. */
  lemma FailuresKeepTheStore(m: Model, s: State, key: string, input: string, infers: bool, readable: bool,
                             evicted: set<string>)
    ensures var next := Step(m, s, Observe(key, input, infers, readable, false, evicted));
      next.rows == s.rows && next.recorded == s.recorded
    ensures !RowHoldsInput(m, s, key, input) ==>
              Step(m, s, Observe(key, input, false, readable, true, evicted)) == s
  {
  }

  /** A full map is emptied before the next entry goes in, and no other is. */
  lemma FullMapIsCleared(m: map<string, Embedding>, key: string, e: Embedding)
    ensures |m| >= 64 ==> Remember(m, key, e) == map[key := e]
    ensures |m| < 64 ==> Remember(m, key, e) == m[key := e]
  {
  }

  // ----- The plugin ---------------------------------------------------------

  class EmbeddingSimilarityPlugin {
    const model: Model
    var observed: map<string, Embedding>
    var recordedInputs: map<string, string>
    var rows: map<string, Embedding>
    var observedPoisoned: bool
    var recordedPoisoned: bool

    ghost function Contents(): State
      reads this
    {
      State(observed, recordedInputs, rows, observedPoisoned, recordedPoisoned)
    }

    constructor (model: Model, rows: map<string, Embedding>)
      ensures this.model == model && Contents() == Initial(rows)
    {
      this.model := model;
      observed, recordedInputs, this.rows := map[], map[], rows;
      observedPoisoned, recordedPoisoned := false, false;
    }

    /** Records the sketch of one window. `key` is the caller's stable key, coarser than the input. */
    method Observe(key: string, appName: string, windowTitle: string,
                   infers: bool, readable: bool, writable: bool, evicted: set<string>)
      modifies this
      ensures Contents() == ObserveStep(model, old(Contents()), key, EmbeddingInput(appName, windowTitle),
                                        infers, readable, writable, evicted)
    {
      ObserveInput(key, EmbeddingInput(appName, windowTitle), infers, readable, writable, evicted);
    }

    method ObserveInput(key: string, input: string, infers: bool, readable: bool, writable: bool, evicted: set<string>)
      modifies this
      ensures Contents() == ObserveStep(model, old(Contents()), key, input, infers, readable, writable, evicted)
    {
      var inputHash := model.hash(input);
      var rowHoldsThisInput :=
        !recordedPoisoned && key in recordedInputs && recordedInputs[key] == inputHash;
      var embedding: Option<Embedding> := None;
      if rowHoldsThisInput && model.hasStore && readable && key in rows {
        embedding := Some(rows[key]);
      } else if infers {
        embedding := Some(model.embed(input));
      }
      if embedding.None? {
        return;
      }
      RememberObservation(inputHash, embedding.value);
      if model.hasStore && writable {
        rows := rows[key := embedding.value] - evicted;
        RememberRecord(key, inputHash);
      }
    }

    method RememberObservation(inputHash: string, embedding: Embedding)
      modifies this`observed
      ensures observed == if observedPoisoned then old(observed) else Remember(old(observed), inputHash, embedding)
    {
      if !observedPoisoned {
        if |observed| >= CAPACITY {
          observed := map[];
        }
        observed := observed[inputHash := embedding];
      }
    }

    method RememberRecord(key: string, inputHash: string)
      modifies this`recordedInputs
      ensures recordedInputs
           == if recordedPoisoned then old(recordedInputs) else Remember(old(recordedInputs), key, inputHash)
    {
      if !recordedPoisoned {
        if |recordedInputs| >= CAPACITY {
          recordedInputs := map[];
        }
        recordedInputs := recordedInputs[key := inputHash];
      }
    }

    /** The verdict on a window, by `decide` on its embedding, taken from the cache if it is there. */
    method Classify<V>(appName: string, windowTitle: string, infers: bool, decide: Embedding -> Option<V>,
                       ghost inputs: iset<string>)
      returns (verdict: Option<V>)
      modifies this
      ensures Contents() == ClassifyStep(model, old(Contents()), EmbeddingInput(appName, windowTitle))
      ensures var e := ClassifyEmbedding(model, old(Contents()), EmbeddingInput(appName, windowTitle), infers);
              verdict == if e.Some? then decide(e.value) else None
      ensures Consistent(model, inputs, old(Contents())) && EmbeddingInput(appName, windowTitle) in inputs && infers
              ==> verdict == decide(model.embed(EmbeddingInput(appName, windowTitle)))
    {
      var input := EmbeddingInput(appName, windowTitle);
      if Consistent(model, inputs, Contents()) && input in inputs {
        ConsistentAgrees(model, inputs, Contents());
        assert Agrees(model, Contents(), input, infers);
      }
      var inputHash := model.hash(input);
      var embedding: Option<Embedding> := None;
      if !observedPoisoned {
        if inputHash in observed {
          embedding := Some(observed[inputHash]);
        }
        observed := observed - {inputHash};
      }
      if embedding.None? && infers {
        embedding := Some(model.embed(input));
      }
      verdict := if embedding.Some? then decide(embedding.value) else None;
    }
  }
}
