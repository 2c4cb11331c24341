/** The device tree builder of lib/tinyemu/riscv_machine.c: `fdt_*`. */
module FdtBuilder {
  import opened Options
  import opened Storage
  import opened FdtFormat
  import opened FdtTree

  // ----- the strings block

  function Table(names: seq<Bytes>): Bytes {
    if names == [] then [] else names[0] + [0] + Table(names[1..])
  }

  lemma {:induction false} TableAppend(names: seq<Bytes>, name: Bytes)
    ensures Table(names + [name]) == Table(names) + (name + [0])
  {
    if names == [] {
      assert Table([name]) == name + [0] + Table([]);
    } else {
      TableAppend(names[1..], name);
      assert (names + [name])[1..] == names[1..] + [name];
    }
  }

  predicate AllNames(names: seq<Bytes>) {
    forall i :: 0 <= i < |names| ==> IsName(names[i])
  }

  predicate Distinct(names: seq<Bytes>) {
    forall i, j :: 0 <= i < j < |names| ==> names[i] != names[j]
  }

  /** The strings block holds these names, each once. */
  ghost predicate Interned(names: seq<Bytes>, strings: Bytes) {
    strings == Table(names) && AllNames(names) && Distinct(names)
  }

  /** A terminated string starts at the offset. */
  predicate Terminated(strings: Bytes, off: nat) {
    off <= |strings| && |CString(strings[off..])| < |strings[off..]|
  }

  predicate Resolvable(ts: seq<Token>, strings: Bytes) {
    forall i :: 0 <= i < |ts| && ts[i].Prop? ==> Terminated(strings, ts[i].nameOffset)
  }

  /** Later additions to the strings block change no name. */
  lemma NameStable(strings: Bytes, more: Bytes, off: nat)
    requires Terminated(strings, off)
    ensures Terminated(strings + more, off) && CString((strings + more)[off..]) == CString(strings[off..])
  {
    assert (strings + more)[off..] == strings[off..] + more;
    CStringStable(strings[off..], more);
  }

  lemma MeansStable(ts: seq<Token>, strings: Bytes, more: Bytes, events: seq<Event>)
    requires Means(ts, strings, events) && Resolvable(ts, strings)
    ensures Means(ts, strings + more, events) && Resolvable(ts, strings + more)
  {
    forall i | 0 <= i < |ts|
      ensures Meaning(ts[i], strings + more) == Some(events[i])
      ensures ts[i].Prop? ==> Terminated(strings + more, ts[i].nameOffset)
    {
      if ts[i].Prop? {
        NameStable(strings, more, ts[i].nameOffset);
      }
    }
  }

  /** Open nodes of a sequence of events. */
  function Depth(events: seq<Event>): int {
    if events == [] then 0
    else
      var e := events[|events| - 1];
      Depth(events[..|events| - 1]) + if e.Open? then 1 else if e.Close? then -1 else 0
  }

  lemma DepthAppend(events: seq<Event>, e: Event)
    ensures Depth(events + [e]) == Depth(events) + if e.Open? then 1 else if e.Close? then -1 else 0
  {
    assert (events + [e])[..|events|] == events;
  }

  lemma MeansAppend(ts: seq<Token>, strings: Bytes, events: seq<Event>, t: Token, e: Event)
    requires Means(ts, strings, events) && Resolvable(ts, strings) && Meaning(t, strings) == Some(e)
    requires t.Prop? ==> Terminated(strings, t.nameOffset)
    ensures Means(ts + [t], strings, events + [e]) && Resolvable(ts + [t], strings)
  {
  }

  class Fdt {
    /** `tab` as bytes; its words are big-endian. */
    var tab: array<byte>
    var tabLen: nat
    var openNodeCount: int
    var strings: array<byte>
    var stringLen: nat
    ghost var tokens: seq<Token>
    /** The calls so far. */
    ghost var events: seq<Event>
    ghost var names: seq<Bytes>

    ghost predicate Buffers()
      reads this
    {
      tab != strings && 4 * tabLen <= tab.Length && tab.Length % 4 == 0 && stringLen <= strings.Length
    }

    ghost function Structure(): Bytes
      requires Buffers()
      reads this, tab
    {
      tab[..4 * tabLen]
    }

    ghost function Strings(): Bytes
      requires Buffers()
      reads this, strings
    {
      strings[..stringLen]
    }

    /** The two blocks hold the calls so far. */
    ghost predicate Valid()
      reads this, tab, strings
    {
      && Buffers() && Interned(names, Strings()) && AllValid(tokens) && Structure() == EncodeAll(tokens)
      && Means(tokens, Strings(), events) && Resolvable(tokens, Strings()) && openNodeCount == Depth(events)
    }

    /** `fdt_init`. */
    constructor ()
      ensures Valid() && events == [] && fresh(tab) && fresh(strings)
    {
      tab, strings := new byte[0], new byte[0];
      tabLen, stringLen, openNodeCount := 0, 0, 0;
      tokens, events, names := [], [], [];
    }

    /** `fdt_alloc_len`: room for `len` words; what is there stays. */
    method AllocLen(len: nat)
      requires Buffers()
      modifies this`tab
      ensures Buffers() && 4 * len <= tab.Length && (tab == old(tab) || fresh(tab))
      ensures Structure() == old(Structure())
    {
      if len > tab.Length / 4 {
        var grown := tab.Length / 4 * 3 / 2;
        var newSize := if len > grown then len else grown;
        var bigger := new byte[4 * newSize];
        forall i | 0 <= i < tab.Length {
          bigger[i] := tab[i];
        }
        tab := bigger;
      }
    }

    /** `fdt_put32`. */
    method Put32(v: nat)
      requires Buffers() && v < 0x1_0000_0000
      modifies this`tab, this`tabLen, tab
      ensures Buffers() && (tab == old(tab) || fresh(tab)) && Structure() == old(Structure()) + Be32(v)
    {
      PutBytes(Be32(v), 1);
    }

    /** Bytes for the next `n` words of `tab`. */
    method PutBytes(b: Bytes, n: nat)
      requires Buffers() && |b| == 4 * n
      modifies this`tab, this`tabLen, tab
      ensures Buffers() && (tab == old(tab) || fresh(tab)) && Structure() == old(Structure()) + b
    {
      AllocLen(tabLen + n);
      ghost var before := Structure();
      var at := 4 * tabLen;
      forall i | 0 <= i < |b| {
        tab[at + i] := b[i];
      }
      tabLen := tabLen + n;
      assert tab[..4 * tabLen] == before + b;
    }

    /** `fdt_put_data`: the bytes, padded with zeros to whole words. */
    method PutData(data: Bytes)
      requires Buffers()
      modifies this`tab, this`tabLen, tab
      ensures Buffers() && (tab == old(tab) || fresh(tab)) && Structure() == old(Structure()) + Padded(data)
    {
      PutBytes(Padded(data), (|data| + 3) / 4);
    }

    /** The next token is in `tab`: it joins the history. */
    ghost method Record(t: Token, e: Event)
      requires Buffers() && Interned(names, Strings()) && AllValid(tokens) && ValidToken(t)
      requires Structure() == EncodeAll(tokens) + Encode(t)
      requires Means(tokens, Strings(), events) && Resolvable(tokens, Strings()) && Meaning(t, Strings()) == Some(e)
      requires t.Prop? ==> Terminated(Strings(), t.nameOffset)
      requires openNodeCount == Depth(events) + if e.Open? then 1 else if e.Close? then -1 else 0
      modifies this`tokens, this`events
      ensures Valid() && events == old(events) + [e]
    {
      hide Encode;
      hide EncodeAll;
      hide Depth;
      hide Terminated;
      hide Meaning;
      hide Means;
      hide Resolvable;
      hide Interned;
      hide AllValid;
      hide ValidToken;
      EncodeAppend(tokens, t);
      DepthAppend(events, e);
      MeansAppend(tokens, Strings(), events, t, e);
      tokens, events := tokens + [t], events + [e];
    }

    /** `fdt_begin_node`. */
    method BeginNode(name: Bytes)
      requires Valid() && IsName(name)
      modifies this, tab
      ensures Valid() && events == old(events) + [Open(name)]
      ensures strings == old(strings) && (tab == old(tab) || fresh(tab))
    {
      hide Means;
      hide Resolvable;
      hide Interned;
      hide AllValid;
      hide EncodeAll;
      hide Depth;
      hide Be32;
      hide Padded;
      Put32(FDT_BEGIN_NODE);
      PutData(name + [0]);
      openNodeCount := openNodeCount + 1;
      assert Structure() == EncodeAll(tokens) + Encode(Begin(name));
      Record(Begin(name), Open(name));
    }

    /** `fdt_end_node`. */
    method EndNode()
      requires Valid()
      modifies this, tab
      ensures Valid() && events == old(events) + [Close]
      ensures strings == old(strings) && (tab == old(tab) || fresh(tab))
    {
      hide Means;
      hide Resolvable;
      hide Interned;
      hide AllValid;
      hide EncodeAll;
      hide Depth;
      hide Be32;
      hide Padded;
      Put32(FDT_END_NODE);
      openNodeCount := openNodeCount - 1;
      Record(End, Close);
    }

    /** The end of the structure block, once all nodes are closed. */
    method Finish()
      requires Valid() && openNodeCount == 0
      modifies this, tab
      ensures Valid() && events == old(events) + [Stop]
      ensures strings == old(strings) && (tab == old(tab) || fresh(tab))
    {
      hide Means;
      hide Resolvable;
      hide Interned;
      hide AllValid;
      hide EncodeAll;
      hide Depth;
      hide Be32;
      hide Padded;
      Put32(FDT_END);
      Record(Token.Finish, Stop);
    }

    /** `fdt_get_string_offset`: the offset of the name, which is added if it is new. */
    method GetStringOffset(name: Bytes) returns (pos: nat)
      requires Buffers() && Interned(names, Strings()) && IsName(name)
      modifies this`strings, this`stringLen, this`names, strings
      ensures Buffers() && Interned(names, Strings()) && (strings == old(strings) || fresh(strings))
      ensures names == if name in old(names) then old(names) else old(names) + [name]
      ensures Strings() == old(Strings()) + if name in old(names) then [] else name + [0]
      ensures Terminated(Strings(), pos) && CString(Strings()[pos..]) == name && pos <= |old(Strings())|
    {
      var found;
      found, pos := FindString(name);
      if !found {
        pos := AddString(name);
      }
    }

    /** The scan of the table, string by string. */
    method FindString(name: Bytes) returns (found: bool, pos: nat)
      requires Buffers() && Interned(names, Strings()) && IsName(name)
      ensures found == (name in names)
      ensures found ==> pos <= |Strings()| && Terminated(Strings(), pos) && CString(Strings()[pos..]) == name
    {
      pos := 0;
      ghost var k := 0;
      assert names[0..] == names && Strings()[0..] == Strings();
      while pos < stringLen
        invariant 0 <= k <= |names| && pos <= stringLen && Strings()[pos..] == Table(names[k..])
        invariant name !in names[..k]
        decreases |names| - k
      {
        TableNext(names, k);
        assert strings[pos..stringLen] == Strings()[pos..];
        var s := CString(strings[pos..stringLen]);
        if s == name {
          assert names[k] == name;
          return true, pos;
        }
        assert names[..k + 1] == names[..k] + [names[k]];
        assert Strings()[pos + |s| + 1..] == Strings()[pos..][|s| + 1..];
        pos := pos + |s| + 1;
        k := k + 1;
      }
      TableEmpty(names[k..]);
      assert names[..k] == names;
      return false, pos;
    }

    /** A new string at the end of the table, which grows if needed. */
    method AddString(name: Bytes) returns (pos: nat)
      requires Buffers() && Interned(names, Strings()) && IsName(name) && name !in names
      modifies this`strings, this`stringLen, this`names, strings
      ensures Buffers() && Interned(names, Strings()) && (strings == old(strings) || fresh(strings))
      ensures names == old(names) + [name] && Strings() == old(Strings()) + (name + [0])
      ensures pos == |old(Strings())| && Terminated(Strings(), pos) && CString(Strings()[pos..]) == name
    {
      hide Distinct;
      hide AllNames;
      InternedAppend(names, Strings(), name);
      hide Interned;
      var nameSize := |name| + 1;
      var newLen := stringLen + nameSize;
      ghost var before := Strings();
      if newLen > strings.Length {
        GrowStrings(newLen);
      }
      pos := stringLen;
      var at := stringLen;
      forall i | 0 <= i < nameSize {
        strings[at + i] := if i < |name| then name[i] else 0;
      }
      stringLen := newLen;
      names := names + [name];
      assert strings[..newLen] == before + (name + [0]);
      assert Strings()[pos..] == name + [0] + [];
      CStringOf(name, []);
    }

    method GrowStrings(newLen: nat)
      requires Buffers() && newLen > strings.Length
      modifies this`strings
      ensures Buffers() && fresh(strings) && newLen <= strings.Length && Strings() == old(Strings())
    {
      var grown := strings.Length * 3 / 2;
      var newSize := if newLen > grown then newLen else grown;
      var bigger := new byte[newSize];
      forall i | 0 <= i < strings.Length {
        bigger[i] := strings[i];
      }
      strings := bigger;
    }

    /** What every property starts with: the tag, the length and the name. */
    method PropHead(name: Bytes, len: nat) returns (off: nat)
      requires Valid() && IsName(name) && len < 0x8000_0000 && stringLen + |name| + 1 < 0x8000_0000
      modifies this`tab, this`tabLen, this`strings, this`stringLen, this`names, tab, strings
      ensures Buffers() && (strings == old(strings) || fresh(strings)) && (tab == old(tab) || fresh(tab))
      ensures Interned(names, Strings()) && Terminated(Strings(), off) && CString(Strings()[off..]) == name
      ensures Means(tokens, Strings(), events) && Resolvable(tokens, Strings()) && off < 0x8000_0000
      ensures Structure() == old(Structure()) + (Be32(FDT_PROP) + Be32(len) + Be32(off))
    {
      hide EncodeAll;
      hide Depth;
      hide Be32;
      hide Means;
      hide Resolvable;
      hide Interned;
      hide Terminated;
      hide CString;
      ghost var was := Strings();
      Put32(FDT_PROP);
      Put32(len);
      MeansStable(tokens, was, name + [0], events);
      off := GetStringOffset(name);
      assert Strings() == was || Strings() == was + (name + [0]);
      Put32(off);
    }

    /** `fdt_prop`. */
    method Property(name: Bytes, data: Bytes)
      requires Valid() && IsName(name) && |data| < 0x8000_0000 && stringLen + |name| + 1 < 0x8000_0000
      modifies this, tab, strings
      ensures Valid() && events == old(events) + [Event.Property(name, data)]
      ensures (strings == old(strings) || fresh(strings)) && (tab == old(tab) || fresh(tab))
    {
      hide EncodeAll;
      hide Depth;
      hide Be32;
      hide Padded;
      hide Means;
      hide Resolvable;
      hide Interned;
      hide Terminated;
      hide CString;
      hide AllValid;
      var off := PropHead(name, |data|);
      PutData(data);
      assert Structure() == EncodeAll(tokens) + Encode(Prop(off, data));
      TerminatedBound(Strings(), off);
      Record(Prop(off, data), Event.Property(name, data));
    }

    /** `fdt_prop_tab_u32`. */
    method PropertyTabU32(name: Bytes, vals: seq<nat>)
      requires Valid() && IsName(name) && 4 * |vals| < 0x8000_0000 && stringLen + |name| + 1 < 0x8000_0000
      requires forall i :: 0 <= i < |vals| ==> vals[i] < 0x1_0000_0000
      modifies this, tab, strings
      ensures Valid() && events == old(events) + [Event.Property(name, Words(vals))]
      ensures (strings == old(strings) || fresh(strings)) && (tab == old(tab) || fresh(tab))
    {
      hide EncodeAll;
      hide Depth;
      hide Be32;
      hide Padded;
      hide Means;
      hide Resolvable;
      hide Interned;
      hide Terminated;
      hide CString;
      hide AllValid;
      var off := PropHead(name, 4 * |vals|);
      PutWords(vals);
      WordsPadded(vals);
      EncodeProp(EncodeAll(tokens), off, Words(vals));
      hide Words;
      hide Encode;
      TerminatedBound(Strings(), off);
      Record(Prop(off, Words(vals)), Event.Property(name, Words(vals)));
    }

    /** The loop over the words of a property. */
    method PutWords(vals: seq<nat>)
      requires Buffers() && forall i :: 0 <= i < |vals| ==> vals[i] < 0x1_0000_0000
      modifies this`tab, this`tabLen, tab
      ensures Buffers() && (tab == old(tab) || fresh(tab)) && Structure() == old(Structure()) + Words(vals)
    {
      hide Be32;
      ghost var before := Structure();
      var i := 0;
      while i < |vals|
        invariant 0 <= i <= |vals| && Buffers() && (tab == old(tab) || fresh(tab))
        invariant Structure() == before + Words(vals[..i])
      {
        WordsNext(vals, i);
        Put32(vals[i]);
        i := i + 1;
      }
      assert vals[..i] == vals;
    }

    /** `fdt_prop_u32`. */
    method PropertyU32(name: Bytes, val: nat)
      requires Valid() && IsName(name) && val < 0x1_0000_0000 && stringLen + |name| + 1 < 0x8000_0000
      modifies this, tab, strings
      ensures Valid() && events == old(events) + [Event.Property(name, Be32(val))]
      ensures (strings == old(strings) || fresh(strings)) && (tab == old(tab) || fresh(tab))
    {
      WordsNext([val], 0);
      assert [val][..1] == [val] && [val][..0] == [];
      assert Words([val]) == Be32(val);
      PropertyTabU32(name, [val]);
    }

    /** `fdt_prop_str`. */
    method PropertyStr(name: Bytes, str: Bytes)
      requires Valid() && IsName(name) && IsName(str)
      requires |str| + 1 < 0x8000_0000 && stringLen + |name| + 1 < 0x8000_0000
      modifies this, tab, strings
      ensures Valid() && events == old(events) + [Event.Property(name, str + [0])]
      ensures (strings == old(strings) || fresh(strings)) && (tab == old(tab) || fresh(tab))
    {
      Property(name, str + [0]);
    }

    /** A reader of the two blocks gets back exactly the calls. */
    lemma ReadsBack()
      requires Valid()
      ensures Read(Structure(), Strings()) == Some(events)
    {
      StructureRoundTrip(tokens);
      ReadMeaning(tokens, Strings(), events);
    }

    /** When the calls were those of a tree, the reader gets back the tree. */
    lemma TreeReadsBack(t: Tree)
      requires Valid() && events == Events(t) + [Stop]
      ensures var es := Read(Structure(), Strings()); es.Some? && ParseTree(es.value) == Some((t, [Stop]))
    {
      ReadsBack();
      TreeRoundTrip(t, [Stop]);
    }
  }

  // ----- properties of words

  function Words(vals: seq<nat>): (b: Bytes)
    requires forall i :: 0 <= i < |vals| ==> vals[i] < 0x1_0000_0000
    ensures |b| == 4 * |vals|
  {
    if vals == [] then [] else Words(vals[..|vals| - 1]) + Be32(vals[|vals| - 1])
  }

  lemma EncodeProp(s: Bytes, off: nat, data: Bytes)
    requires off < 0x1_0000_0000 && |data| < 0x1_0000_0000
    ensures s + (Be32(FDT_PROP) + Be32(|data|) + Be32(off)) + Padded(data) == s + Encode(Prop(off, data))
  {
    hide Be32;
    hide Padded;
  }

  lemma WordsNext(vals: seq<nat>, i: nat)
    requires i < |vals| && forall i :: 0 <= i < |vals| ==> vals[i] < 0x1_0000_0000
    ensures Words(vals[..i + 1]) == Words(vals[..i]) + Be32(vals[i])
  {
    assert vals[..i + 1][..i] == vals[..i];
  }

  lemma WordsPadded(vals: seq<nat>)
    requires forall i :: 0 <= i < |vals| ==> vals[i] < 0x1_0000_0000
    ensures Padded(Words(vals)) == Words(vals)
  {
    hide Words;
    assert Align4(4 * |vals|) == 4 * |vals|;
  }

  lemma TerminatedBound(strings: Bytes, off: nat)
    requires Terminated(strings, off)
    ensures off <= |strings|
  {
  }

  lemma TableNext(names: seq<Bytes>, k: nat)
    requires AllNames(names) && k <= |names| && Table(names[k..]) != []
    ensures k < |names| && CString(Table(names[k..])) == names[k]
    ensures |names[k]| < |Table(names[k..])| && Table(names[k..])[|names[k]| + 1..] == Table(names[k + 1..])
  {
    var rest := names[k..];
    assert rest[0] == names[k] && rest[1..] == names[k + 1..];
    CStringOf(names[k], Table(names[k + 1..]));
  }

  lemma TableEmpty(names: seq<Bytes>)
    requires Table(names) == []
    ensures names == []
  {
  }

  lemma InternedAppend(names: seq<Bytes>, strings: Bytes, name: Bytes)
    requires Interned(names, strings) && IsName(name) && name !in names
    ensures Interned(names + [name], strings + (name + [0]))
  {
    TableAppend(names, name);
  }
}
