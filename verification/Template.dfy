/** JSON notification templates: the placeholder scanner, the explicit-stack
    validator and the renderer (crates/alert/src/template.rs:4-173).

    JSON text itself is parsed and printed by a library and is not modelled; an
    object is its keys and its values, side by side. */
module Template {
  import opened Wrappers

  const MAX_TEMPLATE_NODES: nat := 1024
  const MAX_TEMPLATE_DEPTH: nat := 16
  const MAX_PLACEHOLDERS: nat := 128

  const ALLOWED: set<string> :=
    {"event_id", "notification_id", "transition", "monitor_name", "status", "value", "scry_url"}

  datatype Value =
    | Leaf(scalar: string)
    | Text(text: string)
    | Array(items: seq<Value>)
    | Object(keys: seq<string>, items: seq<Value>)

  datatype TemplateError = Bounds | UnknownPlaceholder(name: string) | InvalidPlaceholder

  // ---------------------------------------------------------------- scanning

  /** The character `c` twice in a row at `i`. */
  predicate PairAt(s: string, c: char, i: int) {
    0 <= i < |s| - 1 && s[i] == c && s[i + 1] == c
  }

  /** Where `cc` first occurs. */
  function Find(s: string, c: char): (r: Option<nat>)
    ensures r.Some? ==> PairAt(s, c, r.value) && forall j | 0 <= j < r.value :: !PairAt(s, c, j)
    ensures r.None? ==> forall j :: !PairAt(s, c, j)
  {
    if |s| < 2 then None
    else if s[0] == c && s[1] == c then Some(0)
    else
      var rest := Find(s[1..], c);
      assert forall j | 0 <= j < |s| - 2 :: PairAt(s[1..], c, j) == PairAt(s, c, j + 1);
      assert rest.None? ==> forall j | j > 0 && PairAt(s, c, j) :: PairAt(s[1..], c, j - 1);
      assert rest.Some? ==> forall j | 0 < j < rest.value + 1 && PairAt(s, c, j) :: PairAt(s[1..], c, j - 1);
      if rest.Some? then Some(rest.value + 1) else None
  }

  predicate GoodName(name: string) {
    name != "" && '{' !in name && '}' !in name
  }

  /** A template string cut into literals and placeholders. */
  datatype Piece = Literal(text: string) | Hole(name: string)

  /** Cut as far as the scanner gets, and whether it got to the end. */
  function Cut(text: string): (seq<Piece>, bool)
    decreases |text|
  {
    var open := Find(text, '{');
    if open.None? then ([Literal(text)], Find(text, '}').None?)
    else
      var before, after := text[..open.value], text[open.value + 2..];
      var close := Find(after, '}');
      if close.None? || !GoodName(after[..close.value]) then ([Literal(before)], false)
      else
        var (rest, ok) := Cut(after[close.value + 2..]);
        ([Literal(before), Hole(after[..close.value])] + rest, ok)
  }

  predicate WellFormed(text: string) {
    Cut(text).1
  }

  /** Names of the placeholders, in order. */
  function Names(pieces: seq<Piece>): seq<string> {
    if pieces == [] then []
    else (if pieces[0].Hole? then [pieces[0].name] else []) + Names(pieces[1..])
  }

  /** Placeholders the scanner visits before it ends or fails. */
  function Holes(text: string): seq<string> {
    Names(Cut(text).0)
  }

  /** A pair of `c` with something on either side. */
  function Around(before: string, c: char, after: string): string {
    before + ([c, c] + after)
  }

  function Spell(pieces: seq<Piece>): string {
    if pieces == [] then ""
    else if pieces[0].Literal? then pieces[0].text + Spell(pieces[1..])
    else Around("", '{', Around(pieces[0].name, '}', Spell(pieces[1..])))
  }

  lemma SplitAtPair(text: string, c: char, i: nat)
    requires PairAt(text, c, i)
    ensures text == Around(text[..i], c, text[i + 2..])
  {
    assert text[i..] == [c, c] + text[i + 2..];
    assert text == text[..i] + text[i..];
  }

  /** Nothing is lost or added by cutting. */
  lemma {:induction false} CutSpellsBack(text: string)
    requires WellFormed(text)
    ensures Spell(Cut(text).0) == text
    decreases |text|
  {
    var open := Find(text, '{');
    if open.None? {
      SpellLiteral(text);
    } else {
      var before, after := text[..open.value], text[open.value + 2..];
      var close := Find(after, '}');
      var name, tail := after[..close.value], after[close.value + 2..];
      CutSpellsBack(tail);
      SpellTwo(before, name, Cut(tail).0);
      SplitAtPair(text, '{', open.value);
      SplitAtPair(after, '}', close.value);
    }
  }

  lemma SpellLiteral(text: string)
    ensures Spell([Literal(text)]) == text
  {
    assert [Literal(text)][1..] == [];
  }

  lemma SpellTwo(before: string, name: string, rest: seq<Piece>)
    ensures Spell([Literal(before), Hole(name)] + rest) == Around(before, '{', Around(name, '}', Spell(rest)))
  {
    var all := [Literal(before), Hole(name)] + rest;
    assert all[1..] == [Hole(name)] + rest && ([Hole(name)] + rest)[1..] == rest;
    var inner := ['{', '{'] + Around(name, '}', Spell(rest));
    assert "" + inner == inner;
  }

  /** A list of pieces the scanner accepts: literals around placeholders, no literal
      opening one itself; only the last literal is searched for a stray close. */
  predicate Canonical(pieces: seq<Piece>)
    decreases |pieces|
  {
    if |pieces| == 1 then
      pieces[0].Literal? && Find(pieces[0].text, '{').None? && Find(pieces[0].text, '}').None?
    else
      && |pieces| >= 3 && pieces[0].Literal? && pieces[1].Hole? && GoodName(pieces[1].name)
      && Find(pieces[0].text, '{').None? && (pieces[0].text == "" || pieces[0].text[|pieces[0].text| - 1] != '{')
      && Canonical(pieces[2..])
  }

  lemma FirstPair(s: string, c: char, i: nat)
    requires PairAt(s, c, i) && forall j | 0 <= j < i :: !PairAt(s, c, j)
    ensures Find(s, c) == Some(i)
  {
  }

  /** A pair after text that neither holds one nor runs into it is the first. */
  lemma FindAround(before: string, c: char, after: string)
    requires Find(before, c).None? && (before == "" || before[|before| - 1] != c)
    ensures var text := Around(before, c, after);
      Find(text, c) == Some(|before|) && text[..|before|] == before && text[|before| + 2..] == after
  {
    var text, n := Around(before, c, after), |before|;
    assert text[n] == c && text[n + 1] == c;
    forall j | 0 <= j < n ensures !PairAt(text, c, j) {
      assert !PairAt(before, c, j);
      assert text[j] == before[j];
    }
    FirstPair(text, c, n);
  }

  /** Exactly the spellings of canonical lists are well formed. */
  lemma {:induction false} CanonicalIsCut(pieces: seq<Piece>)
    requires Canonical(pieces)
    ensures Cut(Spell(pieces)) == (pieces, true)
    decreases |pieces|
  {
    if |pieces| == 1 {
      assert pieces == [Literal(pieces[0].text)];
      SpellLiteral(pieces[0].text);
    } else {
      var before, name, rest := pieces[0].text, pieces[1].name, pieces[2..];
      assert pieces == [Literal(before), Hole(name)] + rest;
      SpellTwo(before, name, rest);
      CanonicalIsCut(rest);
      CutHole(before, name, Spell(rest));
    }
  }

  lemma CutHole(before: string, name: string, tail: string)
    requires GoodName(name) && Find(before, '{').None? && (before == "" || before[|before| - 1] != '{')
    ensures Cut(Around(before, '{', Around(name, '}', tail))) == ([Literal(before), Hole(name)] + Cut(tail).0, Cut(tail).1)
  {
    var after := Around(name, '}', tail);
    FindAround(before, '{', after);
    FindAround(name, '}', tail);
  }

  lemma {:induction false} CutIsCanonical(text: string)
    requires WellFormed(text)
    ensures Canonical(Cut(text).0)
    decreases |text|
  {
    var open := Find(text, '{');
    if open.Some? {
      var before, after := text[..open.value], text[open.value + 2..];
      var close := Find(after, '}');
      var tail := after[close.value + 2..];
      CutIsCanonical(tail);
      LiteralBeforePair(text, open.value);
      CanonicalTwo(before, after[..close.value], Cut(tail).0);
    }
  }

  lemma CanonicalTwo(before: string, name: string, rest: seq<Piece>)
    requires GoodName(name) && Find(before, '{').None? && (before == "" || before[|before| - 1] != '{') && Canonical(rest)
    ensures Canonical([Literal(before), Hole(name)] + rest)
  {
    assert ([Literal(before), Hole(name)] + rest)[2..] == rest;
  }

  /** A literal before the first `{{` holds none itself and does not run into it. */
  lemma LiteralBeforePair(text: string, i: nat)
    requires PairAt(text, '{', i) && forall j | 0 <= j < i :: !PairAt(text, '{', j)
    ensures Find(text[..i], '{').None? && (i > 0 ==> text[i - 1] != '{')
  {
    if i > 0 {
      assert !PairAt(text, '{', i - 1);
    }
    var found := Find(text[..i], '{');
    if found.Some? {
      assert PairAt(text, '{', found.value);
      assert false;
    }
  }

  // ---------------------------------------------------------------- checking one string

  predicate AllAllowed(names: seq<string>) {
    forall name | name in names :: name in ALLOWED
  }

  /** What an error says about the string being scanned. */
  predicate Explains(e: TemplateError, text: string, count: nat) {
    match e
    case Bounds => count + |Holes(text)| > MAX_PLACEHOLDERS
    case UnknownPlaceholder(name) => name in Holes(text) && name !in ALLOWED
    case InvalidPlaceholder => !WellFormed(text)
  }

  lemma HolesTurn(before: string, name: string, rest: seq<Piece>)
    ensures Names([Literal(before), Hole(name)] + rest) == [name] + Names(rest)
  {
    var all := [Literal(before), Hole(name)] + rest;
    assert all[1..] == [Hole(name)] + rest && ([Hole(name)] + rest)[1..] == rest;
  }

  /** One turn of the scanner: a placeholder, or the failure there. */
  lemma {:induction false} ScanTurn(text: string)
    requires Find(text, '{').Some?
    ensures var after := text[Find(text, '{').value + 2..];
      var close := Find(after, '}');
      if close.None? || !GoodName(after[..close.value]) then !WellFormed(text)
      else
        var tail := after[close.value + 2..];
        |tail| < |text| && WellFormed(text) == WellFormed(tail) && Holes(text) == [after[..close.value]] + Holes(tail)
  {
    var i := Find(text, '{').value;
    var after := text[i + 2..];
    var close := Find(after, '}');
    if close.Some? && GoodName(after[..close.value]) {
      var name, tail := after[..close.value], after[close.value + 2..];
      assert Cut(text) == ([Literal(text[..i]), Hole(name)] + Cut(tail).0, Cut(tail).1);
      HolesTurn(text[..i], name, Cut(tail).0);
    }
  }

  lemma LastTurn(text: string)
    requires Find(text, '{').None?
    ensures WellFormed(text) == Find(text, '}').None? && Holes(text) == []
  {
    assert [Literal(text)][1..] == [];
    assert Names([Literal(text)]) == [] + Names([]);
  }

  /** What is known when the scan has `rest` to go: the placeholders before it were fine. */
  ghost predicate Scanned(text: string, start: nat, rest: string, count: nat) {
    && WellFormed(text) == WellFormed(rest)
    && start <= count <= MAX_PLACEHOLDERS && count + |Holes(rest)| == start + |Holes(text)|
    && (forall name | name in Holes(rest) :: name in Holes(text))
    && (AllAllowed(Holes(text)) <==> AllAllowed(Holes(rest)))
  }

  /** `placeholders` with the visitor of the validator: count, bound, allow-list. */
  method CheckText(text: string, start: nat) returns (r: Result<nat, TemplateError>)
    requires start <= MAX_PLACEHOLDERS
    ensures r.Ok? <==> WellFormed(text) && AllAllowed(Holes(text)) && start + |Holes(text)| <= MAX_PLACEHOLDERS
    ensures r.Ok? ==> r.value == start + |Holes(text)|
    ensures r.Err? ==> Explains(r.error, text, start)
  {
    var rest, count: nat := text, start;
    while Find(rest, '{').Some?
      invariant Scanned(text, start, rest, count)
      decreases |rest|
    {
      ScanTurn(rest);
      var after := rest[Find(rest, '{').value + 2..];
      var end := Find(after, '}');
      if end.None? {
        return Err(InvalidPlaceholder);
      }
      var name := after[..end.value];
      if name == "" || '{' in name || '}' in name {
        return Err(InvalidPlaceholder);
      }
      if count + 1 > MAX_PLACEHOLDERS {
        return Err(Bounds);
      }
      if name !in ALLOWED {
        assert name in Holes(rest);
        return Err(UnknownPlaceholder(name));
      }
      var tail := after[end.value + 2..];
      rest, count := tail, count + 1;
    }
    LastTurn(rest);
    if Find(rest, '}').Some? {
      return Err(InvalidPlaceholder);
    }
    return Ok(count);
  }

  // ---------------------------------------------------------------- the whole tree

  /** What the validator needs to know of one string. */
  datatype TextFacts = TextFacts(holes: nat, formed: bool, listed: bool)

  const FACTS: string -> TextFacts := text => TextFacts(|Holes(text)|, WellFormed(text), AllAllowed(Holes(text)))

  /** Nodes and placeholders of a forest, whether no node is too deep, and whether
      every string in it is well formed and allow-listed. */
  datatype Weight = Weight(nodes: nat, holes: nat, shallow: bool, formed: bool, listed: bool)
  {
    function Plus(w: Weight): Weight {
      Weight(nodes + w.nodes, holes + w.holes, shallow && w.shallow, formed && w.formed, listed && w.listed)
    }

    predicate Within() {
      nodes <= MAX_TEMPLATE_NODES && holes <= MAX_PLACEHOLDERS && shallow && formed && listed
    }

    /** What an error says. */
    predicate Convicted(e: TemplateError) {
      match e
      case Bounds => nodes > MAX_TEMPLATE_NODES || holes > MAX_PLACEHOLDERS || !shallow
      case UnknownPlaceholder(_) => !listed
      case InvalidPlaceholder => !formed
    }
  }

  const NOTHING: Weight := Weight(0, 0, true, true, true)

  /** One node without its children. */
  function Own(v: Value, depth: nat, facts: string -> TextFacts): Weight {
    var shallow := depth <= MAX_TEMPLATE_DEPTH;
    if v.Text? then Weight(1, facts(v.text).holes, shallow, facts(v.text).formed, facts(v.text).listed)
    else Weight(1, 0, shallow, true, true)
  }

  /** A value standing at `depth`: itself and its children one deeper. */
  function Weigh(v: Value, depth: nat, facts: string -> TextFacts): Weight
    decreases v
  {
    match v
    case Array(items) => Own(v, depth, facts).Plus(WeighAll(items, depth + 1, facts))
    case Object(_, items) => Own(v, depth, facts).Plus(WeighAll(items, depth + 1, facts))
    case _ => Own(v, depth, facts)
  }

  function WeighAll(vs: seq<Value>, depth: nat, facts: string -> TextFacts): Weight
    decreases vs
  {
    if vs == [] then NOTHING
    else WeighAll(vs[..|vs| - 1], depth, facts).Plus(Weigh(vs[|vs| - 1], depth, facts))
  }

  /** The recursive definition of an acceptable template. */
  predicate Acceptable(v: Value) {
    Weigh(v, 1, FACTS).Within()
  }

  type Frame = (Value, nat)

  function StackWeight(stack: seq<Frame>, facts: string -> TextFacts): Weight
    decreases |stack|
  {
    if stack == [] then NOTHING
    else StackWeight(stack[..|stack| - 1], facts).Plus(Weigh(stack[|stack| - 1].0, stack[|stack| - 1].1, facts))
  }

  function Frames(items: seq<Value>, depth: nat): (r: seq<Frame>)
    ensures |r| == |items|
  {
    seq(|items|, i requires 0 <= i < |items| => (items[i], depth))
  }

  function Children(v: Value): seq<Value> {
    match v
    case Array(items) => items
    case Object(_, items) => items
    case _ => []
  }

  lemma PlusAssociates(a: Weight, b: Weight, c: Weight)
    ensures a.Plus(b).Plus(c) == a.Plus(b.Plus(c))
  {
  }

  lemma {:induction false} StackAppend(stack: seq<Frame>, f: Frame, facts: string -> TextFacts)
    ensures StackWeight(stack + [f], facts) == StackWeight(stack, facts).Plus(Weigh(f.0, f.1, facts))
  {
    assert (stack + [f])[..|stack|] == stack;
  }

  lemma FramesSplit(stack: seq<Frame>, items: seq<Value>, depth: nat)
    requires items != []
    ensures stack + Frames(items, depth) == stack + Frames(items[..|items| - 1], depth) + [(items[|items| - 1], depth)]
  {
    assert Frames(items, depth) == Frames(items[..|items| - 1], depth) + [(items[|items| - 1], depth)];
  }

  /** Pushing the children of a value. */
  lemma {:induction false} Pushed(stack: seq<Frame>, items: seq<Value>, depth: nat, facts: string -> TextFacts)
    ensures StackWeight(stack + Frames(items, depth), facts) == StackWeight(stack, facts).Plus(WeighAll(items, depth, facts))
    decreases |items|
  {
    if items == [] {
      assert stack + Frames(items, depth) == stack;
    } else {
      var n := |items| - 1;
      var before := stack + Frames(items[..n], depth);
      Pushed(stack, items[..n], depth, facts);
      FramesSplit(stack, items, depth);
      StackAppend(before, (items[n], depth), facts);
      var a, b, c := StackWeight(stack, facts), WeighAll(items[..n], depth, facts), Weigh(items[n], depth, facts);
      PlusAssociates(a, b, c);
      assert WeighAll(items, depth, facts) == b.Plus(c);
    }
  }

  /** Taking a value off the stack and putting its children on. */
  lemma {:induction false} PopPush(rest: seq<Frame>, v: Value, depth: nat, done: Weight, facts: string -> TextFacts)
    ensures done.Plus(StackWeight(rest + [(v, depth)], facts)) ==
      done.Plus(Own(v, depth, facts)).Plus(StackWeight(rest + Frames(Children(v), depth + 1), facts))
  {
    var own, below, kids := Own(v, depth, facts), StackWeight(rest, facts), WeighAll(Children(v), depth + 1, facts);
    StackAppend(rest, (v, depth), facts);
    Pushed(rest, Children(v), depth + 1, facts);
    WeighSplit(v, depth, facts);
    Regroup(done, below, own, kids);
  }

  lemma {:induction false} WeighSplit(v: Value, depth: nat, facts: string -> TextFacts)
    ensures Weigh(v, depth, facts) == Own(v, depth, facts).Plus(WeighAll(Children(v), depth + 1, facts))
  {
  }

  lemma Regroup(done: Weight, below: Weight, own: Weight, kids: Weight)
    ensures done.Plus(below.Plus(own.Plus(kids))) == done.Plus(own).Plus(below.Plus(kids))
  {
  }

  /** The string of the value just popped, if it is one. */
  method CheckValue(v: Value, depth: nat, count: nat) returns (r: Result<nat, TemplateError>)
    requires count <= MAX_PLACEHOLDERS
    ensures var own := Own(v, depth, FACTS);
      && (r.Ok? ==> own.formed && own.listed && r.value == count + own.holes <= MAX_PLACEHOLDERS)
      && (r.Err? ==> match r.error
                     case Bounds => count + own.holes > MAX_PLACEHOLDERS
                     case UnknownPlaceholder(_) => !own.listed
                     case InvalidPlaceholder => !own.formed)
  {
    if !v.Text? {
      return Ok(count);
    }
    r := CheckText(v.text, count);
  }

  /** The checks on one popped value, given the weight `done` of those before it. */
  method Visit(v: Value, depth: nat, nodes: nat, count: nat, ghost done: Weight) returns (r: Result<nat, TemplateError>)
    requires done.Within() && done.nodes + 1 == nodes && done.holes == count
    ensures var now := done.Plus(Own(v, depth, FACTS));
      if r.Ok? then now.Within() && now.nodes == nodes && now.holes == r.value else now.Convicted(r.error)
  {
    if nodes > MAX_TEMPLATE_NODES || depth > MAX_TEMPLATE_DEPTH {
      return Err(Bounds);
    }
    r := CheckValue(v, depth, count);
  }

  /** One turn: pop a value, check it, push its children. */
  method Turn(stack: seq<Frame>, nodes: nat, count: nat, ghost done: Weight)
    returns (r: Result<(seq<Frame>, nat), TemplateError>, ghost next: Weight)
    requires stack != [] && done.Within() && done.nodes + 1 == nodes && done.holes == count
    ensures r.Ok? ==> next.Within() && next.nodes == nodes && next.holes == r.value.1
    ensures r.Ok? ==> next.Plus(StackWeight(r.value.0, FACTS)) == done.Plus(StackWeight(stack, FACTS))
    ensures r.Err? ==> done.Plus(StackWeight(stack, FACTS)).Convicted(r.error) && !done.Plus(StackWeight(stack, FACTS)).Within()
  {
    var (v, depth) := stack[|stack| - 1];
    var rest := stack[..|stack| - 1];
    assert stack == rest + [(v, depth)];
    PopPush(rest, v, depth, done, FACTS);
    next := done.Plus(Own(v, depth, FACTS));
    var visited := Visit(v, depth, nodes, count, done);
    var pushed := rest + Frames(Children(v), depth + 1);
    if visited.Err? {
      r := Err(visited.error);
    } else {
      r := Ok((pushed, visited.value));
    }
  }

  /** The loop over the stack. */
  method RunStack(start: seq<Frame>, ghost whole: Weight) returns (r: Result<(), TemplateError>)
    requires whole == NOTHING.Plus(StackWeight(start, FACTS))
    ensures r.Ok? <==> whole.Within()
    ensures r.Err? ==> whole.Convicted(r.error)
  {
    var stack, nodes: nat, count: nat := start, 0, 0;
    ghost var done := NOTHING;
    while stack != []
      invariant done.Within() && done.nodes == nodes && done.holes == count
      invariant done.Plus(StackWeight(stack, FACTS)) == whole
      decreases whole.nodes - nodes
    {
      nodes := nodes + 1;
      var turn;
      turn, done := Turn(stack, nodes, count, done);
      if turn.Err? {
        return Err(turn.error);
      }
      stack, count := turn.value.0, turn.value.1;
    }
    return Ok(());
  }

  /** The explicit-stack validator accepts exactly the acceptable templates. */
  method ValidateAst(root: Value) returns (r: Result<(), TemplateError>)
    ensures r.Ok? <==> Acceptable(root)
    ensures r.Err? ==> Weigh(root, 1, FACTS).Convicted(r.error)
  {
    FirstFrame((root, 1), FACTS);
    r := RunStack([(root, 1)], Weigh(root, 1, FACTS));
  }

  lemma FirstFrame(f: Frame, facts: string -> TextFacts)
    ensures NOTHING.Plus(StackWeight([f], facts)) == Weigh(f.0, f.1, facts)
  {
    StackAppend([], f, facts);
    assert [] + [f] == [f];
  }

  // ---------------------------------------------------------------- rendering

  datatype Values = Values(
    eventId: string, notificationId: string, transition: string, monitorName: string,
    status: string, value: string, scryUrl: string)
  {
    /** Only an allow-listed name has a value. */
    function Get(name: string): string
      requires name in ALLOWED
    {
      if name == "event_id" then eventId
      else if name == "notification_id" then notificationId
      else if name == "transition" then transition
      else if name == "monitor_name" then monitorName
      else if name == "status" then status
      else if name == "value" then value
      else scryUrl
    }
  }

  predicate PiecesListed(pieces: seq<Piece>) {
    forall p | p in pieces && p.Hole? :: p.name in ALLOWED
  }

  /** Literals as they stand and each placeholder's value, left to right; what was
      inserted is not looked at again. */
  function Expand(pieces: seq<Piece>, values: Values): string
    requires PiecesListed(pieces)
  {
    if pieces == [] then ""
    else (if pieces[0].Hole? then values.Get(pieces[0].name) else pieces[0].text) + Expand(pieces[1..], values)
  }

  lemma {:induction false} ListedNames(pieces: seq<Piece>)
    ensures AllAllowed(Names(pieces)) <==> PiecesListed(pieces)
  {
    if pieces != [] {
      ListedNames(pieces[1..]);
      assert forall p :: p in pieces <==> p == pieces[0] || p in pieces[1..];
      assert forall n :: n in Names(pieces) <==> (pieces[0].Hole? && n == pieces[0].name) || n in Names(pieces[1..]);
    }
  }

  /** A string the renderer can expand: every `expect` and lookup in it succeeds. */
  predicate Renderable(text: string) {
    WellFormed(text) && PiecesListed(Cut(text).0)
  }

  /** What each placeholder stands for, by the name a template writes. */
  lemma {:induction false} PlaceholdersRender(values: Values, before: string, after: string)
    requires Find(before, '{').None? && (before == "" || before[|before| - 1] != '{')
    requires Find(after, '{').None? && Find(after, '}').None?
    ensures RendersTo(values, before, "event_id", after, values.eventId)
    ensures RendersTo(values, before, "notification_id", after, values.notificationId)
    ensures RendersTo(values, before, "transition", after, values.transition)
    ensures RendersTo(values, before, "monitor_name", after, values.monitorName)
    ensures RendersTo(values, before, "status", after, values.status)
    ensures RendersTo(values, before, "value", after, values.value)
    ensures RendersTo(values, before, "scry_url", after, values.scryUrl)
  {
    PlaceholderIsCut(values, before, "event_id", after);
    PlaceholderIsCut(values, before, "notification_id", after);
    PlaceholderIsCut(values, before, "transition", after);
    PlaceholderIsCut(values, before, "monitor_name", after);
    PlaceholderIsCut(values, before, "status", after);
    PlaceholderIsCut(values, before, "value", after);
    PlaceholderIsCut(values, before, "scry_url", after);
  }

  function Placeholder(before: string, name: string, after: string): string {
    before + "{{" + name + "}}" + after
  }

  /** The text with this placeholder renders to the text with `value` in its place. */
  predicate RendersTo(values: Values, before: string, name: string, after: string, value: string) {
    var text := Placeholder(before, name, after);
    Renderable(text) && Expand(Cut(text).0, values) == before + value + after
  }

  lemma {:induction false} NameIsGood(name: string)
    requires name in ALLOWED
    ensures GoodName(name)
  {
  }

  lemma {:induction false} ExpandsOne(values: Values, before: string, name: string, after: string)
    requires name in ALLOWED
    ensures var pieces := [Literal(before), Hole(name)] + [Literal(after)];
      PiecesListed(pieces) && Expand(pieces, values) == before + values.Get(name) + after
  {
    var pieces := [Literal(before), Hole(name)] + [Literal(after)];
    assert pieces[1..] == [Hole(name), Literal(after)] && pieces[1..][1..] == [Literal(after)];
    assert Expand([Literal(after)], values) == after + Expand([], values);
  }

  lemma PlaceholderIsAround(before: string, name: string, after: string)
    ensures Placeholder(before, name, after) == Around(before, '{', Around(name, '}', after))
  {
  }

  lemma {:induction false} NothingToCut(text: string)
    requires Find(text, '{').None? && Find(text, '}').None?
    ensures Cut(text) == ([Literal(text)], true)
  {
  }

  lemma {:induction false} PlaceholderIsCut(values: Values, before: string, name: string, after: string)
    requires name in ALLOWED && Find(before, '{').None? && (before == "" || before[|before| - 1] != '{')
    requires Find(after, '{').None? && Find(after, '}').None?
    ensures RendersTo(values, before, name, after, values.Get(name))
  {
    NameIsGood(name);
    PlaceholderIsAround(before, name, after);
    CutHole(before, name, after);
    NothingToCut(after);
    ExpandsOne(values, before, name, after);
  }

  /** The renderer's loop over one string. */
  method RenderText(text: string, values: Values) returns (out: string)
    requires Renderable(text)
    ensures out == Expand(Cut(text).0, values)
  {
    if Find(text, '{').None? {
      return text;
    }
    out := RenderHoles(text, values, Expand(Cut(text).0, values));
  }

  /** The text up to and including the first placeholder, rendered, and what follows it. */
  method RenderOne(text: string, values: Values) returns (out: string, tail: string)
    requires Renderable(text) && Find(text, '{').Some?
    ensures |tail| < |text| && Renderable(tail)
    ensures Expand(Cut(text).0, values) == out + Expand(Cut(tail).0, values)
  {
    var start := Find(text, '{').value;
    var after := text[start + 2..];
    var end := Find(after, '}').value;
    tail := after[end + 2..];
    out := text[..start];
    out := out + values.Get(after[..end]);
  }

  method RenderHoles(text: string, values: Values, ghost goal: string) returns (out: string)
    requires Renderable(text) && goal == Expand(Cut(text).0, values)
    ensures out == goal
  {
    var rest := text;
    out := "";
    while Find(rest, '{').Some?
      invariant Renderable(rest) && out + Expand(Cut(rest).0, values) == goal
      decreases |rest|
    {
      var piece, tail := RenderOne(rest, values);
      out, rest := out + piece, tail;
    }
    out := out + rest;
  }

  predicate Sound(v: Value)
    decreases v
  {
    match v
    case Text(text) => Renderable(text)
    case Array(items) => SoundAll(items)
    case Object(_, items) => SoundAll(items)
    case Leaf(_) => true
  }

  predicate SoundAll(vs: seq<Value>)
    decreases vs
  {
    vs == [] || (SoundAll(vs[..|vs| - 1]) && Sound(vs[|vs| - 1]))
  }

  lemma SoundText(text: string)
    ensures FACTS(text).formed && FACTS(text).listed <==> Renderable(text)
  {
    ListedNames(Cut(text).0);
  }

  lemma {:induction false} SoundIsWeighed(v: Value, depth: nat)
    ensures var w := Weigh(v, depth, FACTS); w.formed && w.listed <==> Sound(v)
    decreases v
  {
    match v
    case Text(text) => SoundText(text);
    case Array(items) =>
      WeighSplit(v, depth, FACTS);
      SoundAllIsWeighed(items, depth + 1);
    case Object(_, items) =>
      WeighSplit(v, depth, FACTS);
      SoundAllIsWeighed(items, depth + 1);
    case Leaf(_) =>
  }

  lemma {:induction false} SoundAllIsWeighed(vs: seq<Value>, depth: nat)
    ensures var w := WeighAll(vs, depth, FACTS); w.formed && w.listed <==> SoundAll(vs)
    decreases vs
  {
    if vs != [] {
      SoundAllIsWeighed(vs[..|vs| - 1], depth);
      SoundIsWeighed(vs[|vs| - 1], depth);
    }
  }

  /** Whatever the validator accepts, the renderer can render. */
  lemma AcceptedRenders(root: Value)
    requires Acceptable(root)
    ensures Sound(root)
  {
    SoundIsWeighed(root, 1);
  }

  lemma {:induction false} SoundAt(vs: seq<Value>, i: nat)
    requires SoundAll(vs) && i < |vs|
    ensures Sound(vs[i])
    decreases |vs|
  {
    if i < |vs| - 1 {
      SoundAt(vs[..|vs| - 1], i);
    }
  }

  function Rendered(v: Value, values: Values): Value
    requires Sound(v)
    decreases v
  {
    match v
    case Text(text) => Text(Expand(Cut(text).0, values))
    case Array(items) => Array(RenderedAll(items, values))
    case Object(keys, items) => Object(keys, RenderedAll(items, values))
    case Leaf(_) => v
  }

  function RenderedAll(vs: seq<Value>, values: Values): (r: seq<Value>)
    requires SoundAll(vs)
    ensures |r| == |vs|
    decreases vs
  {
    if vs == [] then [] else RenderedAll(vs[..|vs| - 1], values) + [Rendered(vs[|vs| - 1], values)]
  }

  /** The same tree but for the contents of its strings. */
  predicate SameShape(a: Value, b: Value)
    decreases a
  {
    match a
    case Leaf(_) => b == a
    case Text(_) => b.Text?
    case Array(items) => b.Array? && SameShapes(items, b.items)
    case Object(keys, items) => b.Object? && b.keys == keys && SameShapes(items, b.items)
  }

  predicate SameShapes(a: seq<Value>, b: seq<Value>)
    decreases a
  {
    && |a| == |b|
    && (a == [] || (SameShapes(a[..|a| - 1], b[..|b| - 1]) && SameShape(a[|a| - 1], b[|b| - 1])))
  }

  /** Rendering keeps shape, keys and every leaf that is not a string. */
  lemma {:induction false} RenderKeepsShape(v: Value, values: Values)
    requires Sound(v)
    ensures SameShape(v, Rendered(v, values))
    decreases v
  {
    match v
    case Array(items) => RenderKeepsShapes(items, values);
    case Object(_, items) => RenderKeepsShapes(items, values);
    case _ =>
  }

  lemma {:induction false} RenderKeepsShapes(vs: seq<Value>, values: Values)
    requires SoundAll(vs)
    ensures SameShapes(vs, RenderedAll(vs, values))
    decreases vs
  {
    if vs != [] {
      var n := |vs| - 1;
      RenderKeepsShapes(vs[..n], values);
      RenderKeepsShape(vs[n], values);
      assert RenderedAll(vs, values)[..n] == RenderedAll(vs[..n], values);
    }
  }

  /** The tree rewritten value by value. */
  method RenderValue(v: Value, values: Values) returns (r: Value)
    requires Sound(v)
    ensures r == Rendered(v, values)
    decreases v
  {
    match v
    case Text(text) =>
      var out := RenderText(text, values);
      r := Text(out);
    case Array(items) =>
      var done := RenderItems(items, values);
      r := Array(done);
    case Object(keys, items) =>
      var done := RenderItems(items, values);
      r := Object(keys, done);
    case Leaf(_) =>
      r := v;
  }

  method RenderItems(items: seq<Value>, values: Values) returns (r: seq<Value>)
    requires SoundAll(items)
    ensures r == RenderedAll(items, values)
    decreases items
  {
    r := items;
    for i := 0 to |items|
      invariant |r| == |items| && r[i..] == items[i..]
      invariant SoundAll(items[..i]) && r[..i] == RenderedAll(items[..i], values)
    {
      SoundAt(items, i);
      SoundPrefix(items, i + 1);
      assert items[..i + 1][..i] == items[..i] && items[..i + 1][i] == items[i] && r[i] == items[i];
      var rendered := RenderValue(items[i], values);
      r := r[i := rendered];
      assert r[..i + 1] == r[..i] + [rendered];
    }
    assert items[..|items|] == items && r[..|items|] == r;
  }

  lemma {:induction false} SoundPrefix(vs: seq<Value>, i: nat)
    requires SoundAll(vs) && i <= |vs|
    ensures SoundAll(vs[..i])
    decreases |vs|
  {
    if i == |vs| {
      assert vs[..i] == vs;
    } else {
      SoundPrefix(vs[..|vs| - 1], i);
      assert vs[..|vs| - 1][..i] == vs[..i];
    }
  }
}
