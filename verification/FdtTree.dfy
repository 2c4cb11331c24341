/** Device trees, the calls that build them, and the reader that gets them back. */
module FdtTree {
  import opened Options
  import opened FdtFormat

  datatype Tree = Node(name: Bytes, props: seq<(Bytes, Bytes)>, children: seq<Tree>)

  /** A token with its property name in place of the offset: what a call to the
      builder says, and what a reader of both blocks sees. */
  datatype Event = Open(name: Bytes) | Close | Property(name: Bytes, data: Bytes) | Stop

  function Meaning(t: Token, strings: Bytes): Option<Event> {
    match t
    case Begin(name) => Some(Open(name))
    case End => Some(Close)
    case Prop(off, data) => if off <= |strings| then Some(Property(CString(strings[off..]), data)) else None
    case Finish => Some(Stop)
  }

  /** Each token means the event at its place. */
  predicate Means(ts: seq<Token>, strings: Bytes, events: seq<Event>) {
    |ts| == |events| && forall i :: 0 <= i < |ts| ==> Meaning(ts[i], strings) == Some(events[i])
  }

  /** A reader of the structure and strings blocks. */
  function Read(structure: Bytes, strings: Bytes): Option<seq<Event>> {
    match DecodeAll(structure)
    case None => None
    case Some(ts) => ReadTokens(ts, strings)
  }

  function ReadTokens(ts: seq<Token>, strings: Bytes): Option<seq<Event>> {
    if ts == [] then Some([])
    else match Meaning(ts[0], strings)
      case None => None
      case Some(e) =>
        match ReadTokens(ts[1..], strings)
        case None => None
        case Some(es) => Some([e] + es)
  }

  lemma {:induction false} ReadMeaning(ts: seq<Token>, strings: Bytes, events: seq<Event>)
    requires Means(ts, strings, events)
    ensures ReadTokens(ts, strings) == Some(events)
  {
    if ts != [] {
      ReadMeaning(ts[1..], strings, events[1..]);
      assert events == [events[0]] + events[1..];
    }
  }

  // ----- trees as events

  function PropEvents(props: seq<(Bytes, Bytes)>): seq<Event> {
    if props == [] then [] else [Property(props[0].0, props[0].1)] + PropEvents(props[1..])
  }

  function Events(t: Tree): (es: seq<Event>)
    ensures |es| >= 2 && es[0] == Open(t.name)
    decreases t, |t.children| + 1
  {
    [Open(t.name)] + PropEvents(t.props) + ForestEvents(t, t.children) + [Close]
  }

  function ForestEvents(ghost parent: Tree, ts: seq<Tree>): seq<Event>
    requires forall i :: 0 <= i < |ts| ==> ts[i] < parent
    decreases parent, |ts|
  {
    if ts == [] then [] else Events(ts[0]) + ForestEvents(parent, ts[1..])
  }

  function ParseProps(es: seq<Event>): (r: (seq<(Bytes, Bytes)>, seq<Event>))
    ensures |r.1| <= |es|
  {
    if es != [] && es[0].Property? then
      var (ps, rest) := ParseProps(es[1..]);
      ([(es[0].name, es[0].data)] + ps, rest)
    else ([], es)
  }

  /** A reader of one node, with what follows it. */
  function ParseTree(es: seq<Event>): (r: Option<(Tree, seq<Event>)>)
    ensures r.Some? ==> |r.value.1| < |es|
    decreases |es|, 0
  {
    if es == [] || !es[0].Open? then None
    else
      var (props, rest) := ParseProps(es[1..]);
      match ParseForest(rest)
      case None => None
      case Some((children, rest)) =>
        if rest == [] || !rest[0].Close? then None else Some((Node(es[0].name, props, children), rest[1..]))
  }

  function ParseForest(es: seq<Event>): (r: Option<(seq<Tree>, seq<Event>)>)
    ensures r.Some? ==> |r.value.1| <= |es|
    decreases |es|, 1
  {
    if es == [] || !es[0].Open? then Some(([], es))
    else match ParseTree(es)
      case None => None
      case Some((t, rest)) =>
        match ParseForest(rest)
        case None => None
        case Some((ts, rest)) => Some(([t] + ts, rest))
  }

  lemma {:induction false} PropsRoundTrip(props: seq<(Bytes, Bytes)>, rest: seq<Event>)
    requires rest == [] || !rest[0].Property?
    ensures ParseProps(PropEvents(props) + rest) == (props, rest)
  {
    var es := PropEvents(props) + rest;
    if props == [] {
      assert es == rest;
    } else {
      PropsRoundTrip(props[1..], rest);
      assert es[1..] == PropEvents(props[1..]) + rest;
      assert props == [(props[0].0, props[0].1)] + props[1..];
    }
  }

  lemma ParseStep(es: seq<Event>, t: Tree, rest: seq<Event>)
    requires es != [] && es[0].Open? && ParseTree(es) == Some((t, rest))
    ensures |rest| <= |es|
    ensures ParseForest(es) == match ParseForest(rest) case None => None case Some((ts, more)) => Some(([t] + ts, more))
  {
    hide ParseTree;
  }

  /** The reader recovers the tree from its events. */
  lemma {:induction false} TreeRoundTrip(t: Tree, rest: seq<Event>)
    ensures ParseTree(Events(t) + rest) == Some((t, rest))
    decreases t, |t.children| + 1
  {
    var es := Events(t) + rest;
    var after := ForestEvents(t, t.children) + ([Close] + rest);
    assert es[1..] == PropEvents(t.props) + after;
    if t.children != [] {
      assert after[0] == Open(t.children[0].name);
    }
    PropsRoundTrip(t.props, after);
    ForestRoundTrip(t, t.children, [Close] + rest);
    assert ([Close] + rest)[1..] == rest;
  }

  lemma {:induction false} ForestRoundTrip(parent: Tree, ts: seq<Tree>, rest: seq<Event>)
    requires forall i :: 0 <= i < |ts| ==> ts[i] < parent
    requires rest == [] || !rest[0].Open?
    ensures ParseForest(ForestEvents(parent, ts) + rest) == Some((ts, rest))
    decreases parent, |ts|
  {
    var es := ForestEvents(parent, ts) + rest;
    if ts == [] {
      assert es == rest;
    } else {
      var first, others := Events(ts[0]), ForestEvents(parent, ts[1..]);
      assert ForestEvents(parent, ts) == first + others;
      hide *;
      assert es == first + (others + rest);
      assert es[0] == Open(ts[0].name);
      TreeRoundTrip(ts[0], others + rest);
      ForestRoundTrip(parent, ts[1..], rest);
      ParseStep(es, ts[0], others + rest);
      assert ts == [ts[0]] + ts[1..];
    }
  }
}
