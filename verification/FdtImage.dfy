/** The device tree in guest memory, byte by byte and with its numbers written out
    (sections 5.2 to 5.6 of the Devicetree Specification v0.2): the reference that the
    builder and its output are compared with. It uses none of their constants, nor
    their writers and readers of words. */
module FdtImage {
  import opened FdtFormat
  import opened FdtTree
  import opened FdtBuilder

  /** The big-endian word at `k`. */
  function Word(b: Bytes, k: nat): nat
    requires k + 4 <= |b|
  {
    b[k] as nat * 0x100_0000 + b[k + 1] as nat * 0x1_0000 + b[k + 2] as nat * 0x100 + b[k + 3] as nat
  }

  /** From `i` up to `j` there are zero bytes. */
  predicate Clear(b: Bytes, i: nat, j: nat) {
    i <= j <= |b| && forall k :: i <= k < j ==> b[k] == 0
  }

  /** At `k` stands the name with its terminator. */
  predicate NameAt(b: Bytes, k: nat, name: Bytes) {
    k + |name| < |b| && b[k..k + |name|] == name && b[k + |name|] == 0 && forall i :: 0 <= i < |name| ==> name[i] != 0
  }

  /** The structure block `b` spells the events, given the strings block. */
  predicate Spells(b: Bytes, strings: Bytes, events: seq<Event>)
    decreases |events|
  {
    if events == [] then b == []
    else
      && |b| >= 4
      && match events[0]
         case Open(name) =>
           var next := 4 + (|name| + 4) / 4 * 4;
           && Word(b, 0) == 1 && NameAt(b, 4, name) && Clear(b, 4 + |name|, next)
           && Spells(b[next..], strings, events[1..])
         case Close => Word(b, 0) == 2 && Spells(b[4..], strings, events[1..])
         case Property(name, data) =>
           var next := 12 + (|data| + 3) / 4 * 4;
           && |b| >= 12 + |data| && Word(b, 0) == 3 && Word(b, 4) == |data| && NameAt(strings, Word(b, 8), name)
           && b[12..12 + |data|] == data && Clear(b, 12 + |data|, next) && Spells(b[next..], strings, events[1..])
         case Stop => Word(b, 0) == 9 && Spells(b[4..], strings, events[1..])
  }

  /** The image: ten header words, the structure block at 40, one empty reserve entry
      of 16 bytes, the strings block, and zeros up to multiples of 8. */
  predicate Image(b: Bytes, events: seq<Event>) {
    && |b| >= 40 && |b| % 8 == 0 && b[..4] == [0xd0, 0x0d, 0xfe, 0xed]
    && Word(b, 4) == |b| && Word(b, 8) == 40 && Word(b, 20) == 17 && Word(b, 24) == 16 && Word(b, 28) == 0
    && var stringsAt, reserveAt, stringsSize, structSize := Word(b, 12), Word(b, 16), Word(b, 32), Word(b, 36);
    && reserveAt % 8 == 0 && 40 + structSize <= reserveAt < 40 + structSize + 8 && stringsAt == reserveAt + 16
    && stringsAt + stringsSize <= |b| < stringsAt + stringsSize + 8
    && Clear(b, 40 + structSize, stringsAt) && Clear(b, stringsAt + stringsSize, |b|)
    && Spells(b[40..40 + structSize], b[stringsAt..stringsAt + stringsSize], events)
  }

  /** Memory `m` is `m0` with an image of `n` bytes at `at`. */
  predicate ImageAt(m0: Bytes, at: nat, n: nat, m: Bytes, events: seq<Event>) {
    && at + n <= |m0| == |m| && m[..at] == m0[..at] && m[at + n..] == m0[at + n..]
    && Image(m[at..at + n], events)
  }

  // ----- what the builder writes spells its calls

  lemma BytesOfWord(v: nat)
    requires v < 0x1_0000_0000
    ensures Word(Be32(v), 0) == v
  {
    var a := v / 0x100;
    var b := a / 0x100;
    assert v / 0x1_0000 == b && v / 0x100_0000 == b / 0x100;
    assert v == a * 0x100 + v % 0x100 && a == b * 0x100 + a % 0x100 && b == b / 0x100 * 0x100 + b % 0x100;
  }

  lemma WordIn(b: Bytes, k: nat, v: nat)
    requires v < 0x1_0000_0000 && k + 4 <= |b| && b[k..k + 4] == Be32(v)
    ensures Word(b, k) == v
  {
    BytesOfWord(v);
    hide Be32;
  }

  lemma {:induction false} CStringEnds(s: Bytes)
    requires |CString(s)| < |s|
    ensures NameAt(s, 0, CString(s))
  {
    if s[0] != 0 {
      CStringEnds(s[1..]);
      var name := CString(s[1..]);
      assert s[..1 + |name|] == [s[0]] + s[1..][..|name|];
    }
  }

  lemma NameStands(strings: Bytes, off: nat)
    requires Terminated(strings, off)
    ensures off <= |strings| && NameAt(strings, off, CString(strings[off..]))
  {
    CStringEnds(strings[off..]);
    var name := CString(strings[off..]);
    hide CString;
    assert strings[off..][..|name|] == strings[off..off + |name|];
  }

  lemma SpelledOpen(name: Bytes, rest: Bytes, strings: Bytes, events: seq<Event>)
    requires IsName(name) && events != [] && events[0] == Open(name) && Spells(rest, strings, events[1..])
    ensures Spells(Encode(Begin(name)) + rest, strings, events)
  {
    var b := Encode(Begin(name)) + rest;
    var fill := Padded(name + [0]);
    assert b == Be32(FDT_BEGIN_NODE) + fill + rest;
    hide Be32;
    WordIn(b, 0, 1);
    var next := 4 + (|name| + 4) / 4 * 4;
    assert |fill| == next - 4;
    assert b[4..4 + |name|] == name && b[next..] == rest;
  }

  lemma SpelledTag(t: Token, tag: nat, rest: Bytes, strings: Bytes, events: seq<Event>)
    requires (t == End && tag == 2) || (t == Finish && tag == 9)
    requires events != [] && events[0] == (if t == End then Close else Stop) && Spells(rest, strings, events[1..])
    ensures Spells(Encode(t) + rest, strings, events)
  {
    var b := Encode(t) + rest;
    assert b == Be32(tag) + rest;
    hide Be32;
    WordIn(b, 0, tag);
    assert b[4..] == rest;
  }

  lemma SpelledProp(off: nat, data: Bytes, rest: Bytes, strings: Bytes, events: seq<Event>)
    requires off < 0x1_0000_0000 && |data| < 0x1_0000_0000 && events != [] && events[0].Property?
    requires events[0].data == data && NameAt(strings, off, events[0].name) && Spells(rest, strings, events[1..])
    ensures Spells(Encode(Prop(off, data)) + rest, strings, events)
  {
    var b := Encode(Prop(off, data)) + rest;
    var fill := Padded(data);
    assert b == Be32(FDT_PROP) + Be32(|data|) + Be32(off) + fill + rest;
    hide Be32;
    PropParts(Be32(FDT_PROP), Be32(|data|), Be32(off), fill, rest, |data|);
    WordIn(b, 0, 3);
    WordIn(b, 4, |data|);
    WordIn(b, 8, off);
    var next := 12 + (|data| + 3) / 4 * 4;
    assert |fill| == next - 12;
    assert b[12..12 + |data|] == data && b[next..] == rest;
  }

  /** The bytes of the tokens spell the events that the tokens mean. */
  lemma {:induction false} TokensSpell(ts: seq<Token>, strings: Bytes, events: seq<Event>)
    requires AllValid(ts) && Means(ts, strings, events) && Resolvable(ts, strings)
    ensures Spells(EncodeAll(ts), strings, events)
  {
    if ts != [] {
      TokensSpell(ts[1..], strings, events[1..]);
      var t, rest := ts[0], EncodeAll(ts[1..]);
      assert EncodeAll(ts) == Encode(t) + rest;
      hide Spells;
      hide Encode;
      hide EncodeAll;
      match t {
        case Begin(name) => SpelledOpen(name, rest, strings, events);
        case End => SpelledTag(t, 2, rest, strings, events);
        case Prop(off, data) =>
          NameStands(strings, off);
          SpelledProp(off, data, rest, strings, events);
        case Finish => SpelledTag(t, 9, rest, strings, events);
      }
    }
  }

  /** A property of words holds them in order, each big-endian. */
  lemma {:induction false} WordsAre(vals: seq<nat>, i: nat)
    requires (forall k :: 0 <= k < |vals| ==> vals[k] < 0x1_0000_0000) && i < |vals|
    ensures Word(Words(vals), 4 * i) == vals[i]
  {
    var n := |vals| - 1;
    var front, last := Words(vals[..n]), Be32(vals[n]);
    assert Words(vals) == front + last;
    if i == n {
      assert (front + last)[4 * n..4 * n + 4] == last;
      WordIn(front + last, 4 * n, vals[n]);
    } else {
      WordsAre(vals[..n], i);
    }
  }
}
