/** The flattened device tree as a reader sees it (sections 5.2 to 5.6 of the
    Devicetree Specification v0.2): tokens of the structure block, the strings
    block, and the tree of nodes and properties that they stand for. */
module FdtFormat {
  import opened Options
  import opened Storage

  type Bytes = seq<byte>

  const FDT_BEGIN_NODE := 1
  const FDT_END_NODE := 2
  const FDT_PROP := 3
  const FDT_END := 9

  /** A C string, without its terminator. */
  predicate IsName(s: Bytes) {
    forall i :: 0 <= i < |s| ==> s[i] != 0
  }

  // ----- words and padding

  function Be32(v: nat): (b: Bytes)
    requires v < 0x1_0000_0000
    ensures |b| == 4
  {
    [(v / 0x100_0000) as byte, (v / 0x1_0000 % 0x100) as byte, (v / 0x100 % 0x100) as byte, (v % 0x100) as byte]
  }

  function FromBe32(b: Bytes): (v: nat)
    requires |b| == 4
    ensures v < 0x1_0000_0000
  {
    ((b[0] as nat * 0x100 + b[1] as nat) * 0x100 + b[2] as nat) * 0x100 + b[3] as nat
  }

  lemma Be32RoundTrip(v: nat)
    requires v < 0x1_0000_0000
    ensures FromBe32(Be32(v)) == v
  {
    var a := v / 0x100;
    var b := a / 0x100;
    assert v / 0x1_0000 == b && v / 0x100_0000 == b / 0x100;
    assert v == a * 0x100 + v % 0x100 && a == b * 0x100 + a % 0x100 && b == b / 0x100 * 0x100 + b % 0x100;
  }

  /** A length rounded up to a multiple of 4. */
  function Align4(n: nat): (m: nat)
    ensures n <= m < n + 4 && m % 4 == 0
  {
    (n + 3) / 4 * 4
  }

  /** The zero padding of `fdt_put_data`. */
  function Padded(data: Bytes): (b: Bytes)
    ensures |b| == Align4(|data|) && b[..|data|] == data
  {
    data + Zeros(Align4(|data|) - |data|)
  }

  /** The C string at the start of the bytes. */
  function CString(s: Bytes): (name: Bytes)
    ensures |name| <= |s| && IsName(name)
  {
    if s == [] || s[0] == 0 then [] else [s[0]] + CString(s[1..])
  }

  lemma {:induction false} CStringOf(name: Bytes, rest: Bytes)
    requires IsName(name)
    ensures CString(name + [0] + rest) == name
  {
    var s := name + [0] + rest;
    if name == [] {
      assert s[0] == 0;
    } else {
      CStringOf(name[1..], rest);
      assert s[1..] == name[1..] + [0] + rest;
    }
  }

  /** A terminated string is the same whatever follows. */
  lemma {:induction false} CStringStable(s: Bytes, more: Bytes)
    requires |CString(s)| < |s|
    ensures CString(s + more) == CString(s)
  {
    if s[0] != 0 {
      CStringStable(s[1..], more);
      assert (s + more)[1..] == s[1..] + more;
    }
  }

  // ----- tokens

  datatype Token =
    | Begin(name: Bytes)
    | End
    | Prop(nameOffset: nat, data: Bytes)
    | Finish

  predicate ValidToken(t: Token) {
    match t
    case Begin(name) => IsName(name)
    case Prop(off, data) => off < 0x1_0000_0000 && |data| < 0x1_0000_0000
    case _ => true
  }

  function Encode(t: Token): (b: Bytes)
    requires ValidToken(t)
    ensures |b| >= 4
  {
    match t
    case Begin(name) => Be32(FDT_BEGIN_NODE) + Padded(name + [0])
    case End => Be32(FDT_END_NODE)
    case Prop(off, data) => Be32(FDT_PROP) + Be32(|data|) + Be32(off) + Padded(data)
    case Finish => Be32(FDT_END)
  }

  predicate AllValid(ts: seq<Token>) {
    forall i :: 0 <= i < |ts| ==> ValidToken(ts[i])
  }

  /** The structure block of a sequence of tokens. */
  function EncodeAll(ts: seq<Token>): (b: Bytes)
    requires AllValid(ts)
  {
    if ts == [] then [] else Encode(ts[0]) + EncodeAll(ts[1..])
  }

  lemma {:induction false} EncodeAppend(ts: seq<Token>, t: Token)
    requires AllValid(ts) && ValidToken(t)
    ensures AllValid(ts + [t]) && EncodeAll(ts + [t]) == EncodeAll(ts) + Encode(t)
  {
    hide Encode;
    if ts == [] {
      assert EncodeAll([t]) == Encode(t) + EncodeAll([]);
    } else {
      EncodeAppend(ts[1..], t);
      assert (ts + [t])[1..] == ts[1..] + [t];
    }
  }

  /** A reader of one token: the token and its length in bytes. */
  function DecodeOne(b: Bytes): (r: Option<(Token, nat)>)
    ensures r.Some? ==> 4 <= r.value.1 <= |b|
  {
    if |b| < 4 then None
    else
      var tag := FromBe32(b[..4]);
      if tag == FDT_BEGIN_NODE then
        var name := CString(b[4..]);
        if |b| < 4 + Align4(|name| + 1) then None else Some((Begin(name), 4 + Align4(|name| + 1)))
      else if tag == FDT_END_NODE then Some((End, 4))
      else if tag == FDT_PROP && |b| >= 12 then
        var len := FromBe32(b[4..8]);
        if |b| < 12 + Align4(len) then None else Some((Prop(FromBe32(b[8..12]), b[12..12 + len]), 12 + Align4(len)))
      else if tag == FDT_END then Some((Finish, 4))
      else None
  }

  function DecodeAll(b: Bytes): Option<seq<Token>>
    decreases |b|
  {
    if b == [] then Some([])
    else match DecodeOne(b)
      case None => None
      case Some((t, n)) =>
        match DecodeAll(b[n..])
        case None => None
        case Some(ts) => Some([t] + ts)
  }

  lemma DecodeBegin(name: Bytes, rest: Bytes)
    requires IsName(name)
    ensures DecodeOne(Encode(Begin(name)) + rest) == Some((Begin(name), |Encode(Begin(name))|))
  {
    Be32RoundTrip(FDT_BEGIN_NODE);
    hide Be32;
    hide FromBe32;
    hide CString;
    hide Padded;
    hide Align4;
    var head, body := Be32(FDT_BEGIN_NODE), Padded(name + [0]);
    var fill := body[|name| + 1..];
    Front(head, body, rest);
    assert body + rest == name + [0] + (fill + rest);
    CStringOf(name, fill + rest);
  }

  lemma Front(a: Bytes, b: Bytes, c: Bytes)
    requires |a| == 4
    ensures (a + b + c)[..4] == a && (a + b + c)[4..] == b + c
  {
  }

  lemma PropParts(a: Bytes, b: Bytes, c: Bytes, d: Bytes, rest: Bytes, len: nat)
    requires |a| == |b| == |c| == 4 && len <= |d|
    ensures var s := a + b + c + d + rest;
            s[..4] == a && s[4..8] == b && s[8..12] == c && s[12..12 + len] == d[..len] && |s| == 12 + |d| + |rest|
  {
  }

  lemma DecodeProp(off: nat, data: Bytes, rest: Bytes)
    requires off < 0x1_0000_0000 && |data| < 0x1_0000_0000
    ensures DecodeOne(Encode(Prop(off, data)) + rest) == Some((Prop(off, data), |Encode(Prop(off, data))|))
  {
    Be32RoundTrip(FDT_PROP);
    Be32RoundTrip(|data|);
    Be32RoundTrip(off);
    hide Be32;
    hide FromBe32;
    hide Padded;
    hide Align4;
    hide CString;
    var body := Padded(data);
    PropParts(Be32(FDT_PROP), Be32(|data|), Be32(off), body, rest, |data|);
  }

  lemma DecodeTag(t: Token, tag: nat, rest: Bytes)
    requires (t == End && tag == FDT_END_NODE) || (t == Finish && tag == FDT_END)
    ensures DecodeOne(Encode(t) + rest) == Some((t, |Encode(t)|))
  {
    Be32RoundTrip(tag);
    hide Be32;
    hide FromBe32;
    hide CString;
    assert (Encode(t) + rest)[..4] == Be32(tag);
  }

  lemma DecodeEncode(t: Token, rest: Bytes)
    requires ValidToken(t)
    ensures DecodeOne(Encode(t) + rest) == Some((t, |Encode(t)|))
  {
    hide Encode;
    hide DecodeOne;
    match t {
      case Begin(name) => DecodeBegin(name, rest);
      case End => DecodeTag(t, FDT_END_NODE, rest);
      case Prop(off, data) => DecodeProp(off, data, rest);
      case Finish => DecodeTag(t, FDT_END, rest);
    }
  }

  lemma DecodeStep(b: Bytes, t: Token, n: nat)
    requires b != [] && DecodeOne(b) == Some((t, n))
    ensures n <= |b| && DecodeAll(b) == match DecodeAll(b[n..]) case None => None case Some(ts) => Some([t] + ts)
  {
    hide DecodeOne;
  }

  /** The reader recovers exactly the tokens that were written. */
  lemma {:induction false} StructureRoundTrip(ts: seq<Token>)
    requires AllValid(ts)
    ensures DecodeAll(EncodeAll(ts)) == Some(ts)
  {
    if ts != [] {
      var b, n := EncodeAll(ts), |Encode(ts[0])|;
      assert b == Encode(ts[0]) + EncodeAll(ts[1..]);
      DecodeEncode(ts[0], EncodeAll(ts[1..]));
      StructureRoundTrip(ts[1..]);
      DecodeStep(b, ts[0], n);
      hide *;
      assert b[n..] == EncodeAll(ts[1..]);
      assert ts == [ts[0]] + ts[1..];
    }
  }
}
