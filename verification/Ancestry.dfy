/** Compaction lineage: the ancestor closure written into a merged block's
    sidecar and its two size limits (crates/block/src/meta.rs:16-112), over every
    history of compactions, and the policy check that rules the limits out
    (crates/compact/src/policy.rs:60-100).

    A UUID is a number; its JSON string always takes 38 bytes with its quotes. */
module Ancestry {
  import opened Wrappers

  const MAX_COMPACTED_ANCESTORS: nat := 584
  const MAX_COMPACTED_ANCESTRY_BYTES: nat := 24 * 1024
  const USIZE: nat := 0x1_0000_0000_0000_0000

  type Uuid = nat

  datatype Block = Block(uuid: Uuid, compactedFrom: seq<Uuid>)

  datatype Fault =
    | NoInputs
    | CompactsItself
    | DuplicateInput(uuid: Uuid)
    | ContainsItself(uuid: Uuid)
    | ContainsOutput(uuid: Uuid)
    | Unsorted(uuid: Uuid)
    | TooManyAncestors
    | TooManyBytes

  predicate StrictlySorted(s: seq<Uuid>) {
    forall i, j | 0 <= i < j < |s| :: s[i] < s[j]
  }

  function Elements(s: seq<Uuid>): set<Uuid> {
    set x | x in s
  }

  /** Every input and every ancestor it records. */
  function Closure(inputs: seq<Block>): set<Uuid>
    decreases |inputs|
  {
    if inputs == [] then {}
    else
      var last := inputs[|inputs| - 1];
      Closure(inputs[..|inputs| - 1]) + {last.uuid} + Elements(last.compactedFrom)
  }

  /** What is wrong with one input, apart from the number of ancestors. */
  function LineageFault(output: Uuid, input: Block, repeated: bool): Option<Fault> {
    if input.uuid == output then Some(CompactsItself)
    else if repeated then Some(DuplicateInput(input.uuid))
    else if input.uuid in input.compactedFrom then Some(ContainsItself(input.uuid))
    else if output in input.compactedFrom then Some(ContainsOutput(input.uuid))
    else if !StrictlySorted(input.compactedFrom) then Some(Unsorted(input.uuid))
    else None
  }

  predicate Repeated(inputs: seq<Block>, i: nat)
    requires i < |inputs|
  {
    exists j :: 0 <= j < i && inputs[j].uuid == inputs[i].uuid
  }

  /** What is wrong with input `i`, given the inputs before it. */
  function InputFault(output: Uuid, inputs: seq<Block>, i: nat): Option<Fault>
    requires i < |inputs|
  {
    var lineage := LineageFault(output, inputs[i], Repeated(inputs, i));
    if lineage.Some? then lineage
    else if |Closure(inputs[..i + 1])| > MAX_COMPACTED_ANCESTORS then Some(TooManyAncestors)
    else None
  }

  /** `r` is the first fault, or the sorted closure when there is none. */
  ghost predicate IsClosureResult(output: Uuid, inputs: seq<Block>, r: Result<seq<Uuid>, Fault>) {
    match r
    case Ok(ancestors) =>
      && inputs != []
      && Faultless(output, inputs, |inputs|)
      && StrictlySorted(ancestors) && Elements(ancestors) == Closure(inputs)
    case Err(e) =>
      if inputs == [] then e == NoInputs
      else exists i :: FirstFault(output, inputs, i, e)
  }

  predicate Faultless(output: Uuid, inputs: seq<Block>, n: nat)
    requires n <= |inputs|
  {
    forall i | 0 <= i < n :: InputFault(output, inputs, i) == None
  }

  ghost predicate FirstFault(output: Uuid, inputs: seq<Block>, i: int, e: Fault) {
    && 0 <= i < |inputs|
    && InputFault(output, inputs, i) == Some(e)
    && Faultless(output, inputs, i)
  }

  /** Bytes of the list as JSON. */
  function EncodedLen(n: nat): nat {
    if n == 0 then 2 else 2 + 38 * n + (n - 1)
  }

  /** The inputs can be merged: other blocks than the output, each once, none listing itself
      or the output, every list strictly sorted. */
  predicate Mergeable(output: Uuid, inputs: seq<Block>) {
    && (forall i | 0 <= i < |inputs| ::
          && inputs[i].uuid != output && inputs[i].uuid !in inputs[i].compactedFrom
          && output !in inputs[i].compactedFrom && StrictlySorted(inputs[i].compactedFrom))
    && forall i, j | 0 <= i < j < |inputs| :: inputs[i].uuid != inputs[j].uuid
  }

  lemma {:induction false} ClosureOnlyGrows(inputs: seq<Block>, i: nat, n: nat)
    requires i <= n <= |inputs|
    ensures Closure(inputs[..i]) <= Closure(inputs[..n]) && |Closure(inputs[..i])| <= |Closure(inputs[..n])|
    decreases n - i
  {
    if i < n {
      ClosureOnlyGrows(inputs, i + 1, n);
      ClosureGrows(inputs, i);
    }
    var a, b := Closure(inputs[..i]), Closure(inputs[..n]);
    assert b == a + (b - a);
  }

  lemma {:induction false} MergeableExactly(output: Uuid, inputs: seq<Block>)
    ensures Mergeable(output, inputs) <==> forall i | 0 <= i < |inputs| :: SoundAt(output, inputs, i)
  {
    if forall i | 0 <= i < |inputs| :: SoundAt(output, inputs, i) {
      forall i | 0 <= i < |inputs| ensures SoundAt(output, inputs, i) && inputs[i].uuid != output {
      }
      assert forall i, j | 0 <= i < j < |inputs| :: SoundAt(output, inputs, j) && inputs[i].uuid != inputs[j].uuid;
      assert forall i | 0 <= i < |inputs| :: SoundAt(output, inputs, i) && inputs[i].uuid !in inputs[i].compactedFrom;
    }
  }

  predicate SoundAt(output: Uuid, inputs: seq<Block>, i: nat)
    requires i < |inputs|
  {
    LineageFault(output, inputs[i], Repeated(inputs, i)) == None
  }

  /** With few ancestors in all, an input is at fault only for its lineage. */
  lemma {:induction false} FewAreFaultless(output: Uuid, inputs: seq<Block>, i: nat)
    requires i < |inputs| && |Closure(inputs)| <= MAX_COMPACTED_ANCESTORS
    ensures InputFault(output, inputs, i) == None <==> SoundAt(output, inputs, i)
  {
    ClosureOnlyGrows(inputs, i + 1, |inputs|);
    assert inputs[..|inputs|] == inputs;
  }

  lemma {:induction false} LastBoundsAll(output: Uuid, inputs: seq<Block>)
    requires inputs != [] && InputFault(output, inputs, |inputs| - 1) == None
    ensures |Closure(inputs)| <= MAX_COMPACTED_ANCESTORS
  {
    assert inputs[..|inputs| - 1 + 1] == inputs;
  }

  /** A merge is accepted exactly when the inputs can be merged and all of their ancestors
      together, themselves included, are at most 584: no prefix fails before the whole does. */
  lemma {:induction false} AcceptedExactly(output: Uuid, inputs: seq<Block>)
    requires inputs != []
    ensures Faultless(output, inputs, |inputs|) <==> Mergeable(output, inputs) && |Closure(inputs)| <= 584
  {
    MergeableExactly(output, inputs);
    if Faultless(output, inputs, |inputs|) {
      LastBoundsAll(output, inputs);
    }
    if |Closure(inputs)| <= 584 {
      forall i: nat | i < |inputs| ensures InputFault(output, inputs, i) == None <==> SoundAt(output, inputs, i) {
        FewAreFaultless(output, inputs, i);
      }
    }
  }

  /** The error tells the truth about the input it is reported for, and nothing is wrong
      before it. */
  lemma {:induction false} FaultIsTrue(output: Uuid, inputs: seq<Block>, i: nat, e: Fault)
    requires FirstFault(output, inputs, i, e)
    ensures Mergeable(output, inputs[..i])
    ensures var b := inputs[i];
      match e
      case CompactsItself => b.uuid == output
      case DuplicateInput(u) => u == b.uuid && exists j :: 0 <= j < i && inputs[j].uuid == u
      case ContainsItself(u) => u == b.uuid && u in b.compactedFrom
      case ContainsOutput(u) => u == b.uuid && output in b.compactedFrom
      case Unsorted(u) => u == b.uuid && !StrictlySorted(b.compactedFrom)
      case TooManyAncestors => Mergeable(output, inputs[..i + 1]) && |Closure(inputs[..i + 1])| > 584
      case _ => false
  {
    forall k | 0 <= k < i ensures LineageFault(output, inputs[k], Repeated(inputs, k)) == None {
      assert InputFault(output, inputs, k) == None;
    }
  }

  // ---------------------------------------------------------------- the program

  predicate IsDirect(inputs: seq<Block>, n: nat, direct: set<Uuid>)
    requires n <= |inputs|
  {
    direct == set j | 0 <= j < n :: inputs[j].uuid
  }

  lemma ClosureGrows(inputs: seq<Block>, i: nat)
    requires i < |inputs|
    ensures Closure(inputs[..i + 1]) == Closure(inputs[..i]) + {inputs[i].uuid} + Elements(inputs[i].compactedFrom)
  {
    assert inputs[..i + 1][..i] == inputs[..i];
  }

  method CheckInput(output: Uuid, input: Block, direct: set<Uuid>) returns (fault: Option<Fault>)
    ensures fault == LineageFault(output, input, input.uuid in direct)
  {
    if input.uuid == output {
      return Some(CompactsItself);
    }
    if input.uuid in direct {
      return Some(DuplicateInput(input.uuid));
    }
    if input.uuid in input.compactedFrom {
      return Some(ContainsItself(input.uuid));
    }
    if output in input.compactedFrom {
      return Some(ContainsOutput(input.uuid));
    }
    var unsorted := SomePairOutOfOrder(input.compactedFrom);
    if unsorted {
      return Some(Unsorted(input.uuid));
    }
    return None;
  }

  /** The loop over the inputs. */
  method GatherClosure(output: Uuid, inputs: seq<Block>) returns (r: Result<set<Uuid>, Fault>)
    ensures r.Ok? ==> r.value == Closure(inputs) && |r.value| <= MAX_COMPACTED_ANCESTORS && Faultless(output, inputs, |inputs|)
    ensures r.Err? ==> exists i :: FirstFault(output, inputs, i, r.error)
  {
    var direct: set<Uuid>, closure: set<Uuid> := {}, {};
    assert inputs[..0] == [];
    for i := 0 to |inputs|
      invariant IsDirect(inputs, i, direct)
      invariant closure == Closure(inputs[..i]) && |closure| <= MAX_COMPACTED_ANCESTORS
      invariant Faultless(output, inputs, i)
    {
      var fault := CheckInput(output, inputs[i], direct);
      if fault.Some? {
        assert FirstFault(output, inputs, i, fault.value);
        return Err(fault.value);
      }
      direct := direct + {inputs[i].uuid};
      ClosureGrows(inputs, i);
      closure := closure + {inputs[i].uuid} + Elements(inputs[i].compactedFrom);
      if |closure| > MAX_COMPACTED_ANCESTORS {
        assert FirstFault(output, inputs, i, TooManyAncestors);
        return Err(TooManyAncestors);
      }
    }
    assert inputs[..|inputs|] == inputs;
    return Ok(closure);
  }

  method CompactedAncestorClosure(output: Uuid, inputs: seq<Block>) returns (r: Result<seq<Uuid>, Fault>)
    ensures IsClosureResult(output, inputs, r)
  {
    if inputs == [] {
      return Err(NoInputs);
    }
    var closure := GatherClosure(output, inputs);
    if closure.Err? {
      return Err(closure.error);
    }
    var ancestors := SortedElements(closure.value);
    // With at most 584 entries the byte limit cannot be exceeded.
    if EncodedLen(|ancestors|) > MAX_COMPACTED_ANCESTRY_BYTES {
      assert false;
    }
    r := Ok(ancestors);
  }

  /** `windows(2).any(|pair| pair[0] >= pair[1])`. */
  method SomePairOutOfOrder(s: seq<Uuid>) returns (b: bool)
    ensures b <==> !StrictlySorted(s)
  {
    var i := 1;
    while i < |s|
      invariant 1 <= i && StrictlySorted(s[..if i <= |s| then i else |s|])
    {
      if s[i - 1] >= s[i] {
        return true;
      }
      i := i + 1;
    }
    assert s[..|s|] == s;
    return false;
  }

  predicate IsLeast(s: set<Uuid>, m: Uuid) {
    m in s && forall x | x in s :: m <= x
  }

  function Least(s: set<Uuid>): (m: Uuid)
    requires s != {}
    ensures IsLeast(s, m)
  {
    LeastExists(s);
    var m :| IsLeast(s, m);
    m
  }

  lemma {:induction false} LeastExists(s: set<Uuid>)
    requires s != {}
    ensures exists m :: IsLeast(s, m)
    decreases s
  {
    var a :| a in s;
    var smaller := set x | x in s && x < a;
    if smaller == {} {
      assert forall x | x in s :: x < a ==> x in smaller;
      assert IsLeast(s, a);
    } else {
      assert a !in smaller;
      LeastExists(smaller);
      var m :| IsLeast(smaller, m);
      assert forall x | x in s :: x < a ==> x in smaller;
      assert IsLeast(s, m);
    }
  }

  lemma AppendLargest(r: seq<Uuid>, m: Uuid)
    requires StrictlySorted(r) && forall x | x in r :: x < m
    ensures StrictlySorted(r + [m]) && Elements(r + [m]) == Elements(r) + {m}
  {
    assert forall i | 0 <= i < |r| :: r[i] in r;
  }

  /** The elements in increasing order, each once. */
  method SortedElements(s: set<Uuid>) returns (r: seq<Uuid>)
    ensures StrictlySorted(r) && Elements(r) == s && |r| == |s|
  {
    var left := s;
    r := [];
    while left != {}
      invariant left <= s && Elements(r) == s - left && |r| + |left| == |s| && StrictlySorted(r)
      invariant forall x, y | x in r && y in left :: x < y
      decreases |left|
    {
      var m := Least(left);
      AppendLargest(r, m);
      r := r + [m];
      left := left - {m};
    }
  }

  // ---------------------------------------------------------------- histories

  /** A block, the earlier blocks it was merged from (none for a freshly written
      one) and its level. */
  datatype Entry = Entry(block: Block, direct: seq<nat>, level: nat)

  type History = seq<Entry>

  function Inputs(h: History, direct: seq<nat>): (r: seq<Block>)
    requires forall j | j in direct :: j < |h|
    ensures |r| == |direct|
  {
    seq(|direct|, i requires 0 <= i < |direct| => (assert direct[i] in direct; h[direct[i]].block))
  }

  /** Entry `i` has a fresh UUID and is a new block, or the accepted merge of
      distinct earlier blocks. */
  ghost predicate EntryOk(h: History, i: nat)
    requires i < |h|
  {
    var e := h[i];
    && (forall j | 0 <= j < i :: h[j].block.uuid != e.block.uuid)
    && (forall j | j in e.direct :: j < i)
    && (if e.direct == [] then e.block.compactedFrom == []
        else IsClosureResult(e.block.uuid, Inputs(h, e.direct), Ok(e.block.compactedFrom)))
  }

  ghost predicate IsHistory(h: History) {
    forall i: nat | i < |h| :: EntryOk(h, i)
  }

  /** A path of direct-input edges, by position in the history. */
  ghost predicate IsPath(h: History, path: seq<nat>) {
    && (forall t | 0 <= t < |path| :: path[t] < |h|)
    && (forall t | 0 <= t < |path| - 1 :: path[t + 1] in h[path[t]].direct)
  }

  /** `path` leads from entry `i` through at least one edge to the block `x`. */
  ghost predicate LeadsTo(h: History, i: nat, x: Uuid, path: seq<nat>) {
    |path| >= 2 && IsPath(h, path) && path[0] == i && h[path[|path| - 1]].block.uuid == x
  }

  /** Some nonempty path of direct-input edges leads from entry `i` to `x`. */
  ghost predicate Reaches(h: History, i: nat, x: Uuid) {
    exists path :: LeadsTo(h, i, x, path)
  }

  lemma {:induction false} InClosure(inputs: seq<Block>, x: Uuid)
    ensures x in Closure(inputs) <==> exists k :: 0 <= k < |inputs| && (x == inputs[k].uuid || x in inputs[k].compactedFrom)
    decreases |inputs|
  {
    if inputs != [] {
      var n := |inputs| - 1;
      InClosure(inputs[..n], x);
      if k :| 0 <= k < n && (x == inputs[..n][k].uuid || x in inputs[..n][k].compactedFrom) {
        assert x == inputs[k].uuid || x in inputs[k].compactedFrom;
      }
    }
  }

  /** The recorded ancestors of an entry: its direct inputs and theirs. */
  lemma RecordedAncestor(h: History, i: nat, x: Uuid)
    requires IsHistory(h) && i < |h|
    ensures x in h[i].block.compactedFrom <==>
      exists j :: j in h[i].direct && j < i && (x == h[j].block.uuid || x in h[j].block.compactedFrom)
  {
    var e := h[i];
    assert EntryOk(h, i);
    if e.direct != [] {
      var inputs := Inputs(h, e.direct);
      InClosure(inputs, x);
      assert x in e.block.compactedFrom <==> x in Elements(e.block.compactedFrom);
      if k :| 0 <= k < |inputs| && (x == inputs[k].uuid || x in inputs[k].compactedFrom) {
        assert e.direct[k] in e.direct;
      }
      if j :| j in e.direct && (x == h[j].block.uuid || x in h[j].block.compactedFrom) {
        var k :| 0 <= k < |e.direct| && e.direct[k] == j;
        assert x == inputs[k].uuid || x in inputs[k].compactedFrom;
      }
    }
  }

  lemma PathExtends(h: History, i: nat, j: nat, x: Uuid, path: seq<nat>)
    requires i < |h| && j in h[i].direct && |path| >= 1 && IsPath(h, path) && path[0] == j
    requires h[path[|path| - 1]].block.uuid == x
    ensures LeadsTo(h, i, x, [i] + path)
  {
    var longer := [i] + path;
    forall t | 0 <= t < |longer| - 1 ensures longer[t + 1] in h[longer[t]].direct {
      if t > 0 {
        assert longer[t] == path[t - 1] && longer[t + 1] == path[t];
      }
    }
  }

  lemma PathShortens(h: History, i: nat, x: Uuid, path: seq<nat>)
    requires LeadsTo(h, i, x, path)
    ensures path[1] in h[i].direct && path[1] < |h|
    ensures h[path[1]].block.uuid == x || LeadsTo(h, path[1], x, path[1..])
  {
    var rest := path[1..];
    assert path[0 + 1] in h[path[0]].direct;
    forall t | 0 <= t < |rest| - 1 ensures rest[t + 1] in h[rest[t]].direct {
      assert path[(t + 1) + 1] in h[path[t + 1]].direct;
    }
  }

  /** `compacted_from` is exactly the set of blocks reachable by direct-input edges. */
  lemma {:induction false} ClosureIsReachability(h: History, i: nat, x: Uuid)
    requires IsHistory(h) && i < |h|
    ensures x in h[i].block.compactedFrom <==> Reaches(h, i, x)
    decreases i
  {
    assert EntryOk(h, i);
    RecordedAncestor(h, i, x);
    if j :| j in h[i].direct && j < i && (x == h[j].block.uuid || x in h[j].block.compactedFrom) {
      if x == h[j].block.uuid {
        PathExtends(h, i, j, x, [j]);
      } else {
        ClosureIsReachability(h, j, x);
        var path :| LeadsTo(h, j, x, path);
        PathExtends(h, i, j, x, path);
      }
    }
    if path :| LeadsTo(h, i, x, path) {
      PathShortens(h, i, x, path);
      var j := path[1];
      if h[j].block.uuid != x {
        ClosureIsReachability(h, j, x);
      }
    }
  }

  /** Ancestors are earlier blocks. */
  lemma {:induction false} AncestorsAreEarlier(h: History, i: nat, x: Uuid)
    requires IsHistory(h) && i < |h| && x in h[i].block.compactedFrom
    ensures exists j :: 0 <= j < i && h[j].block.uuid == x
    decreases i
  {
    RecordedAncestor(h, i, x);
    var j :| j in h[i].direct && j < i && (x == h[j].block.uuid || x in h[j].block.compactedFrom);
    if x != h[j].block.uuid {
      AncestorsAreEarlier(h, j, x);
      var k :| 0 <= k < j && h[k].block.uuid == x;
    }
  }

  /** Every recorded closure is canonical: strictly sorted and without its own block. */
  lemma ClosuresAreCanonical(h: History, i: nat)
    requires IsHistory(h) && i < |h|
    ensures StrictlySorted(h[i].block.compactedFrom) && h[i].block.uuid !in h[i].block.compactedFrom
  {
    assert EntryOk(h, i);
    if h[i].block.uuid in h[i].block.compactedFrom {
      AncestorsAreEarlier(h, i, h[i].block.uuid);
      assert false;
    }
  }

  /** In a history, merging distinct blocks under a fresh UUID can only fail on the number of ancestors. */
  lemma OnlyTheLimitCanFail(h: History, output: Uuid, direct: seq<nat>, i: nat)
    requires IsHistory(h) && (forall j | j in direct :: j < |h|) && i < |direct|
    requires forall a, b | 0 <= a < b < |direct| :: direct[a] != direct[b]
    requires forall j | 0 <= j < |h| :: h[j].block.uuid != output
    ensures var inputs := Inputs(h, direct);
      InputFault(output, inputs, i) ==
        if |Closure(inputs[..i + 1])| > MAX_COMPACTED_ANCESTORS then Some(TooManyAncestors) else None
  {
    var inputs, j := Inputs(h, direct), direct[i];
    assert j in direct;
    ClosuresAreCanonical(h, j);
    if output in inputs[i].compactedFrom {
      AncestorsAreEarlier(h, j, output);
      assert false;
    }
    if k :| 0 <= k < i && inputs[k].uuid == inputs[i].uuid {
      assert direct[k] in direct;
      SameUuidSameEntry(h, direct[k], j);
      assert false;
    }
  }

  lemma SameUuidSameEntry(h: History, a: nat, b: nat)
    requires IsHistory(h) && a < |h| && b < |h| && h[a].block.uuid == h[b].block.uuid
    ensures a == b
  {
    assert EntryOk(h, a) && EntryOk(h, b);
  }

  // ---------------------------------------------------------------- the limits

  function Power(b: nat, n: nat): nat {
    if n == 0 then 1 else b * Power(b, n - 1)
  }

  /** `fanout + fanout^2 + ... + fanout^level`. */
  function Represented(fanout: nat, level: nat): nat {
    if level == 0 then 0 else Represented(fanout, level - 1) + Power(fanout, level)
  }

  lemma {:induction false} RepresentedStep(fanout: nat, level: nat)
    ensures Represented(fanout, level + 1) == fanout * (1 + Represented(fanout, level))
  {
    if level > 0 {
      RepresentedStep(fanout, level - 1);
      var r, p := Represented(fanout, level - 1), Power(fanout, level);
      assert fanout * (1 + r + p) == fanout * (1 + r) + fanout * p;
    } else {
      assert Power(fanout, 1) == fanout * Power(fanout, 0);
    }
  }

  lemma {:induction false} RepresentedGrows(fanout: nat, a: nat, b: nat)
    requires a <= b
    ensures Represented(fanout, a) <= Represented(fanout, b)
    decreases b
  {
    if a < b {
      RepresentedGrows(fanout, a, b - 1);
    }
  }

  lemma PolicyTurn(fanout: nat, i: nat)
    ensures Power(fanout, i + 1) == Power(fanout, i) * fanout
    ensures Represented(fanout, i + 1) == Represented(fanout, i) + Power(fanout, i + 1)
  {
  }

  /** The startup check of a compaction policy. */
  method ValidatePolicy(fanout: nat, maxLevel: nat) returns (ok: bool)
    requires fanout < USIZE
    ensures ok <==> fanout >= 2 && maxLevel >= 1 && Represented(fanout, maxLevel) <= MAX_COMPACTED_ANCESTORS
  {
    if fanout < 2 || maxLevel < 1 {
      return false;
    }
    var represented, width := 0, 1;
    for i := 0 to maxLevel
      invariant width == Power(fanout, i) && represented == Represented(fanout, i) <= MAX_COMPACTED_ANCESTORS
    {
      RepresentedGrows(fanout, i + 1, maxLevel);
      PolicyTurn(fanout, i);
      if width * fanout >= USIZE {
        return false;
      }
      width := width * fanout;
      if represented + width >= USIZE {
        return false;
      }
      represented := represented + width;
      if represented > MAX_COMPACTED_ANCESTORS {
        return false;
      }
    }
    return true;
  }

  lemma {:induction false} SortedCount(s: seq<Uuid>)
    requires StrictlySorted(s)
    ensures |Elements(s)| == |s|
    decreases |s|
  {
    if s != [] {
      var n := |s| - 1;
      SortedCount(s[..n]);
      assert Elements(s) == Elements(s[..n]) + {s[n]};
      assert s[n] !in s[..n];
    }
  }

  lemma LastInputAdds(inputs: seq<Block>, g: nat)
    requires inputs != []
    requires StrictlySorted(inputs[|inputs| - 1].compactedFrom) && |inputs[|inputs| - 1].compactedFrom| <= g
    ensures |Closure(inputs)| <= |Closure(inputs[..|inputs| - 1])| + (1 + g)
  {
    SortedCount(inputs[|inputs| - 1].compactedFrom);
  }

  lemma Times(n: nat, m: nat, c: nat)
    requires n <= m
    ensures n * c <= m * c && (n + 1) * c == n * c + c
  {
  }

  lemma {:induction false} ClosureAtMost(inputs: seq<Block>, g: nat)
    requires forall b | b in inputs :: StrictlySorted(b.compactedFrom) && |b.compactedFrom| <= g
    ensures |Closure(inputs)| <= |inputs| * (1 + g)
    decreases |inputs|
  {
    if inputs != [] {
      var n := |inputs| - 1;
      assert inputs[n] in inputs;
      ClosureAtMost(inputs[..n], g);
      LastInputAdds(inputs, g);
      Times(n, n, 1 + g);
    }
  }

  /** Merges take at most `fanout` blocks, all from the level below. */
  ghost predicate Levelled(h: History, fanout: nat) {
    forall i: nat | i < |h| :: LevelOk(h, fanout, h[i].direct, h[i].level)
  }

  ghost predicate LevelOk(h: History, fanout: nat, direct: seq<nat>, level: nat) {
    |direct| <= fanout && forall j | j in direct :: j < |h| && h[j].level + 1 == level
  }

  /** The closure of blocks at one level below `level`, each within its own bound. */
  lemma MergeAtMost(h: History, fanout: nat, direct: seq<nat>, level: nat, n: nat)
    requires IsHistory(h) && LevelOk(h, fanout, direct, level) && direct != [] && n <= |direct|
    requires forall j | j in direct :: |h[j].block.compactedFrom| <= Represented(fanout, h[j].level)
    ensures level > 0 && |Closure(Inputs(h, direct)[..n])| <= Represented(fanout, level)
  {
    assert direct[0] in direct;
    var g := Represented(fanout, level - 1);
    InputsAtMost(h, direct, n, g);
    RepresentedStep(fanout, level - 1);
    Times(n, fanout, 1 + g);
  }

  lemma InputsAtMost(h: History, direct: seq<nat>, n: nat, g: nat)
    requires IsHistory(h) && n <= |direct|
    requires forall j | j in direct :: j < |h| && |h[j].block.compactedFrom| <= g
    ensures |Closure(Inputs(h, direct)[..n])| <= n * (1 + g)
  {
    var inputs := Inputs(h, direct);
    forall b | b in inputs[..n] ensures StrictlySorted(b.compactedFrom) && |b.compactedFrom| <= g {
      var k :| 0 <= k < n && inputs[k] == b;
      assert direct[k] in direct;
      ClosuresAreCanonical(h, direct[k]);
    }
    ClosureAtMost(inputs[..n], g);
  }

  /** A block of level `l` has at most `fanout + ... + fanout^l` ancestors. */
  lemma {:induction false} AncestryAtMost(h: History, fanout: nat, i: nat)
    requires IsHistory(h) && Levelled(h, fanout) && i < |h|
    ensures |h[i].block.compactedFrom| <= Represented(fanout, h[i].level)
    decreases i
  {
    var e := h[i];
    assert EntryOk(h, i) && LevelOk(h, fanout, e.direct, e.level);
    if e.direct != [] {
      forall j | j in e.direct ensures |h[j].block.compactedFrom| <= Represented(fanout, h[j].level) {
        AncestryAtMost(h, fanout, j);
      }
      var inputs := Inputs(h, e.direct);
      MergeAtMost(h, fanout, e.direct, e.level, |e.direct|);
      assert inputs[..|e.direct|] == inputs;
      SortedCount(e.block.compactedFrom);
    }
  }

  /** Under a policy that passes the startup check, no merge it plans can be
      refused: the closure is returned, within both limits. */
  lemma ValidatedPolicyNeverFails(
    h: History, fanout: nat, maxLevel: nat, output: Uuid, direct: seq<nat>, level: nat, r: Result<seq<Uuid>, Fault>)
    requires IsHistory(h) && Levelled(h, fanout) && Represented(fanout, maxLevel) <= MAX_COMPACTED_ANCESTORS
    requires direct != [] && level <= maxLevel && LevelOk(h, fanout, direct, level)
    requires forall a, b | 0 <= a < b < |direct| :: direct[a] != direct[b]
    requires forall j | 0 <= j < |h| :: h[j].block.uuid != output
    requires IsClosureResult(output, Inputs(h, direct), r)
    ensures r.Ok? && |r.value| <= Represented(fanout, level) && EncodedLen(|r.value|) <= MAX_COMPACTED_ANCESTRY_BYTES
  {
    var inputs := Inputs(h, direct);
    forall j | j in direct ensures |h[j].block.compactedFrom| <= Represented(fanout, h[j].level) {
      AncestryAtMost(h, fanout, j);
    }
    RepresentedGrows(fanout, level, maxLevel);
    forall i | 0 <= i < |inputs| ensures InputFault(output, inputs, i) == None {
      OnlyTheLimitCanFail(h, output, direct, i);
      MergeAtMost(h, fanout, direct, level, i + 1);
    }
    MergeAtMost(h, fanout, direct, level, |direct|);
    assert inputs[..|direct|] == inputs;
    if r.Ok? {
      SortedCount(r.value);
    }
  }

  /** The shipped policy: fanout 8 through level 3 needs 584 entries and 22,777 bytes. */
  lemma ShippedPolicyFits()
    ensures Represented(8, 3) == 584 == MAX_COMPACTED_ANCESTORS
    ensures EncodedLen(584) == 22777 <= MAX_COMPACTED_ANCESTRY_BYTES
  {
  }
}
