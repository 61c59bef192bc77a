/** The name codec: fat16_to83 turns a free-form name into the space-padded,
    upper-case 8.3 form stored in a directory entry, and make_readable turns
    an entry's 8.3 form back into the display form. Names are C strings, so
    a name is the sequence of its bytes before the terminating NUL. */
module NameCodec {
  import opened Common
  import opened OnDisk

  const SPACE: byte := 0x20
  const DOT: byte := 0x2E

  /** toupper in the C locale: only a-z change. */
  function ToUpper(c: byte): byte
  {
    if 0x61 <= c <= 0x7A then c - 0x20 else c
  }

  datatype Name83 = Name83(name: Bytes8, ext: Bytes3)

  /** strrchr(s, '.'): the position of the last dot, if any. */
  function LastDot(s: seq<byte>): (r: Option<nat>)
    ensures r.Some? ==> r.value < |s| && s[r.value] == DOT
    ensures r.Some? ==> forall i :: r.value < i < |s| ==> s[i] != DOT
    ensures r.None? ==> forall i :: 0 <= i < |s| ==> s[i] != DOT
  {
    if |s| == 0 then None
    else if s[|s| - 1] == DOT then Some(|s| - 1)
    else LastDot(s[..|s| - 1])
  }

  /** The first `width` bytes of s upper-cased, padded with spaces to `width`. */
  function Field(s: seq<byte>, width: nat): seq<byte>
  {
    seq(width, i requires 0 <= i < width => if i < |s| then ToUpper(s[i]) else SPACE)
  }

  /** fat16_to83: split at the last dot, truncate to 8 and 3 bytes,
      upper-case, pad with spaces. */
  function To83(s: seq<byte>): Name83
  {
    match LastDot(s)
    case Some(k) => Name83(Field(s[..k], 8), Field(s[k + 1..], 3))
    case None => Name83(Field(s, 8), Field([], 3))
  }

  /** A buffer whose first |src| bytes (at most `width`) are src's bytes
      upper-cased and whose other bytes are spaces is the field of src. */
  lemma FieldOf(buf: seq<byte>, src: seq<byte>, width: nat)
    requires |buf| == width
    requires forall j :: 0 <= j < width ==> buf[j] == if j < |src| then ToUpper(src[j]) else SPACE
    ensures buf == Field(src, width)
  {
  }

  /** fat16_to83 as the engine runs it: space-fill both buffers, then copy
      the upper-cased bytes before and after the last dot. */
  method ToEightThree(s: seq<byte>) returns (r: Name83)
    ensures r == To83(s)
  {
    var name := new byte[8](_ => SPACE);
    var ext := new byte[3](_ => SPACE);
    var dot := LastDot(s);
    var nameSrc := if dot.Some? then s[..dot.value] else s;
    var extSrc := if dot.Some? then s[dot.value + 1..] else [];
    var nlen := Min(|nameSrc|, 8);
    for i := 0 to nlen
      invariant forall j :: 0 <= j < 8 ==> name[j] == if j < i then ToUpper(nameSrc[j]) else SPACE
      invariant forall j :: 0 <= j < 3 ==> ext[j] == SPACE
    {
      name[i] := ToUpper(s[i]);
    }
    FieldOf(name[..], nameSrc, 8);
    var field := name[..];
    if dot.Some? {
      var k := dot.value;
      var elen := Min(|s| - (k + 1), 3);
      for i := 0 to elen
        invariant forall j :: 0 <= j < 3 ==> ext[j] == if j < i then ToUpper(extSrc[j]) else SPACE
      {
        ext[i] := ToUpper(s[k + 1 + i]);
      }
    }
    FieldOf(ext[..], extSrc, 3);
    r := Name83(field, ext[..]);
  }

  /** The 8.3 form splits a name at its last dot: the name part is the
      upper-cased bytes before that dot, the extension the upper-cased bytes
      after it, each truncated and space-padded. */
  lemma To83SplitsAtLastDot(s: seq<byte>, k: nat)
    requires k < |s| && s[k] == DOT
    requires forall i :: k < i < |s| ==> s[i] != DOT
    ensures forall i :: 0 <= i < 8 ==> To83(s).name[i] == if i < k then ToUpper(s[i]) else SPACE
    ensures forall i :: 0 <= i < 3 ==> To83(s).ext[i] == if k + 1 + i < |s| then ToUpper(s[k + 1 + i]) else SPACE
  {
  }

  /** Without a dot the whole name is the name part and the extension is
      all spaces. */
  lemma To83WithoutDot(s: seq<byte>)
    requires forall i :: 0 <= i < |s| ==> s[i] != DOT
    ensures forall i :: 0 <= i < 8 ==> To83(s).name[i] == if i < |s| then ToUpper(s[i]) else SPACE
    ensures To83(s).ext == [SPACE, SPACE, SPACE]
  {
  }

  /** The length of the leading run of non-space bytes. */
  function FirstSpace(s: seq<byte>): (n: nat)
    ensures n <= |s|
    ensures forall i :: 0 <= i < n ==> s[i] != SPACE
    ensures n < |s| ==> s[n] == SPACE
  {
    if |s| == 0 || s[0] == SPACE then 0 else 1 + FirstSpace(s[1..])
  }

  /** make_readable: the name up to its first space, then a dot and the
      extension up to its first space when the extension does not start
      with a space. The result has no space and fits the 13-byte buffer
      with its NUL. */
  function Readable(n: Name83): (r: seq<byte>)
    ensures |r| <= 12
    ensures forall i :: 0 <= i < |r| ==> r[i] != SPACE
    ensures n.ext[0] == SPACE ==> |r| <= 8
  {
    n.name[..FirstSpace(n.name)]
      + (if n.ext[0] != SPACE then [DOT] + n.ext[..FirstSpace(n.ext)] else [])
  }

  /** A buffer holding the name up to its first space, then, when the
      extension does not start with a space, a dot and the extension up to
      its first space, is the display form. */
  lemma ReadableLayout(n: Name83, r: seq<byte>, m: nat, k: nat)
    requires m == FirstSpace(n.name) && k == FirstSpace(n.ext)
    requires |r| == if n.ext[0] != SPACE then m + 1 + k else m
    requires forall j :: 0 <= j < m ==> r[j] == n.name[j]
    requires n.ext[0] != SPACE ==> r[m] == DOT && forall j :: 0 <= j < k ==> r[m + 1 + j] == n.ext[j]
    ensures r == Readable(n)
  {
    if n.ext[0] != SPACE {
      assert r[..m] == n.name[..m] && r[m + 1..] == n.ext[..k];
      assert r == r[..m] + [DOT] + r[m + 1..];
    } else {
      assert r == n.name[..m];
    }
  }

  /** make_readable as the engine runs it, writing into a 13-byte buffer. */
  method MakeReadable(e: DirEntry) returns (r: seq<byte>)
    ensures r == Readable(Name83(e.filename, e.extension))
    ensures |r| < 13
  {
    var name, ext := e.filename, e.extension;
    var out := new byte[13];
    var p := 0;
    while p < 8 && name[p] != SPACE
      invariant 0 <= p <= 8
      invariant forall j :: 0 <= j < p ==> name[j] != SPACE && out[j] == name[j]
    {
      out[p] := name[p];
      p := p + 1;
    }
    FirstSpaceIs(name, p);
    var nameLen := p;
    if ext[0] != SPACE {
      out[p] := DOT;
      p := p + 1;
      var i := 0;
      while i < 3 && ext[i] != SPACE
        invariant 0 <= i <= 3 && p == nameLen + 1 + i
        invariant forall j :: 0 <= j < nameLen ==> out[j] == name[j]
        invariant out[nameLen] == DOT
        invariant forall j :: 0 <= j < i ==> ext[j] != SPACE && out[nameLen + 1 + j] == ext[j]
      {
        out[p] := ext[i];
        p, i := p + 1, i + 1;
      }
      FirstSpaceIs(ext, i);
      out[p] := 0;
      r := out[..p];
      ReadableLayout(Name83(name, ext), r, nameLen, i);
    } else {
      out[p] := 0;
      r := out[..p];
      ReadableLayout(Name83(name, ext), r, nameLen, FirstSpace(ext));
    }
  }

  predicate NoSpace(s: seq<byte>)
  {
    forall i :: 0 <= i < |s| ==> s[i] != SPACE
  }

  /** Upper-casing never produces a space or a dot from anything else, and
      upper-casing twice is upper-casing once. */
  lemma ToUpperFacts(c: byte)
    ensures ToUpper(c) == SPACE <==> c == SPACE
    ensures ToUpper(c) == DOT <==> c == DOT
    ensures ToUpper(ToUpper(c)) == ToUpper(c)
  {
  }

  /** A field of s holds no space at the positions s covers when s has none. */
  lemma FieldPrefix(s: seq<byte>, width: nat)
    requires NoSpace(s)
    ensures FirstSpace(Field(s, width)) == Min(|s|, width)
    ensures Field(Field(s, width)[..Min(|s|, width)], width) == Field(s, width)
  {
    var f := Field(s, width);
    var m := Min(|s|, width);
    forall i | 0 <= i < m ensures f[i] != SPACE {
      ToUpperFacts(s[i]);
    }
    FirstSpaceIs(f, m);
    forall i | 0 <= i < width
      ensures Field(f[..m], width)[i] == f[i]
    {
      if i < m { ToUpperFacts(s[i]); }
    }
  }

  /** FirstSpace is the unique position that ends the leading non-space run. */
  lemma FirstSpaceIs(s: seq<byte>, m: nat)
    requires m <= |s|
    requires forall i :: 0 <= i < m ==> s[i] != SPACE
    requires m < |s| ==> s[m] == SPACE
    ensures FirstSpace(s) == m
  {
  }

  /** A name part, a dot and a dot-free extension split back at that dot. */
  lemma To83OfJoin(np: seq<byte>, ep: seq<byte>)
    requires forall i :: 0 <= i < |ep| ==> ep[i] != DOT
    ensures To83(np + [DOT] + ep) == Name83(Field(np, 8), Field(ep, 3))
  {
    var r := np + [DOT] + ep;
    assert r[|np|] == DOT;
    assert forall i :: |np| < i < |r| ==> r[i] == ep[i - |np| - 1];
    assert r[..|np|] == np && r[|np| + 1..] == ep;
  }

  /** The display form of a normalized name normalizes back to it, for a
      name without spaces (names reach the engine as whitespace-separated
      words). The exception is a name whose extension is empty but whose name
      part holds a dot: see To83ReadableCounterexample. */
  lemma {:induction false} To83ReadableRoundTrip(s: seq<byte>)
    requires NoSpace(s)
    requires To83(s).ext[0] == SPACE ==> forall i :: 0 <= i < 8 ==> To83(s).name[i] != DOT
    ensures To83(Readable(To83(s))) == To83(s)
  {
    var n := To83(s);
    var d := LastDot(s);
    var nameSrc := if d.Some? then s[..d.value] else s;
    var extSrc := if d.Some? then s[d.value + 1..] else [];
    assert n == Name83(Field(nameSrc, 8), Field(extSrc, 3));
    assert NoSpace(nameSrc) && NoSpace(extSrc);
    assert forall i :: 0 <= i < |extSrc| ==> extSrc[i] != DOT;
    FieldsReadBack(nameSrc, extSrc);
  }

  /** The round trip on the two parts a name splits into: space-free parts,
      a dot-free extension part, and no dot in the name field when the
      extension field is blank. */
  lemma FieldsReadBack(nameSrc: seq<byte>, extSrc: seq<byte>)
    requires NoSpace(nameSrc) && NoSpace(extSrc)
    requires forall i :: 0 <= i < |extSrc| ==> extSrc[i] != DOT
    requires Field(extSrc, 3)[0] == SPACE ==> forall i :: 0 <= i < 8 ==> Field(nameSrc, 8)[i] != DOT
    ensures var n := Name83(Field(nameSrc, 8), Field(extSrc, 3));
      To83(Readable(n)) == n
  {
    var n := Name83(Field(nameSrc, 8), Field(extSrc, 3));
    FieldPrefix(nameSrc, 8);
    FieldPrefix(extSrc, 3);
    var np := n.name[..FirstSpace(n.name)];
    assert Field(np, 8) == n.name;
    if n.ext[0] != SPACE {
      var ep := n.ext[..FirstSpace(n.ext)];
      assert Field(ep, 3) == n.ext;
      forall i | 0 <= i < |ep| ensures ep[i] != DOT {
        ToUpperFacts(extSrc[i]);
      }
      assert Readable(n) == np + [DOT] + ep;
      To83OfJoin(np, ep);
    } else {
      assert Readable(n) == np;
      To83WithoutDot(np);
      assert Field([], 3) == n.ext;
    }
  }

  /** "x.y." normalizes to name "X.Y" with an empty extension, whose display
      form "X.Y" normalizes to name "X", extension "Y". */
  lemma To83ReadableCounterexample()
    ensures var s := [0x78, DOT, 0x79, DOT];
      NoSpace(s) && To83(Readable(To83(s))) != To83(s)
  {
    var s: seq<byte> := [0x78, DOT, 0x79, DOT];
    assert LastDot(s) == Some(3);
    var n := To83(s);
    assert n.name == [0x58, DOT, 0x59, SPACE, SPACE, SPACE, SPACE, SPACE];
    assert FirstSpace(n.name) == 3 by { FirstSpaceIs(n.name, 3); }
    assert n.ext[0] == SPACE;
    var r := Readable(n);
    assert r == [0x58, DOT, 0x59];
    assert LastDot(r) == Some(1);
    assert To83(r).name[1] == SPACE;
  }
}
