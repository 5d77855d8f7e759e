/** Names in directory entries: eight characters and an extension of three, padded
    with spaces, and the dotted form programs use. */
module FatNames {
  import opened Numbers

  const SPACE: Byte := 0x20
  const DOT: Byte := 0x2E

  predicate Lower(c: Byte) { 0x61 <= c <= 0x7A }

  function Up(c: Byte): Byte { if Lower(c) then c - 32 else c }

  function UpAll(s: seq<Byte>): (r: seq<Byte>)
    ensures |r| == |s| && forall i | 0 <= i < |s| :: r[i] == Up(s[i])
  {
    seq(|s|, i requires 0 <= i < |s| => Up(s[i]))
  }

  /** Index of the first byte equal to a or b, or the length. */
  function Stop(s: seq<Byte>, a: Byte, b: Byte): (n: nat)
    ensures n <= |s| && (n < |s| ==> s[n] == a || s[n] == b) && forall i | 0 <= i < n :: s[i] != a && s[i] != b
  {
    if s == [] || s[0] == a || s[0] == b then 0
    else
      var r := Stop(s[1..], a, b);
      assert forall i | 1 <= i < 1 + r :: s[i] == s[1..][i - 1];
      1 + r
  }

  lemma StopIs(s: seq<Byte>, a: Byte, b: Byte, n: nat)
    requires n <= |s| && (n < |s| ==> s[n] == a || s[n] == b) && forall i | 0 <= i < n :: s[i] != a && s[i] != b
    ensures Stop(s, a, b) == n
  {
  }

  function Pad(s: seq<Byte>, n: nat): (r: seq<Byte>)
    requires |s| <= n
    ensures |r| == n && forall i | 0 <= i < n :: r[i] == if i < |s| then s[i] else SPACE
  {
    s + seq(n - |s|, _ => SPACE)
  }

  function Cut(s: seq<Byte>, n: nat): seq<Byte> { if |s| <= n then s else s[..n] }

  /** The dotted name as a C string, up to a NUL: before the first dot, and behind. */
  function Base(name: seq<Byte>): seq<Byte> { name[..Stop(name, DOT, 0)] }

  function Extension(name: seq<Byte>): seq<Byte> {
    var n := Stop(name, DOT, 0);
    if n < |name| && name[n] == DOT then name[n + 1..][..Stop(name[n + 1..], 0, 0)] else []
  }

  /** The padded form of a dotted name. */
  function Packed(name: seq<Byte>): seq<Byte> {
    Pad(UpAll(Cut(Base(name), 8)), 8) + Pad(UpAll(Cut(Extension(name), 3)), 3)
  }

  function Trim(s: seq<Byte>): seq<Byte> { s[..Stop(s, SPACE, SPACE)] }

  /** The dotted form of a padded name. */
  function Dotted(raw: seq<Byte>): seq<Byte>
    requires |raw| == 11
  {
    Trim(raw[..8]) + if raw[8] != SPACE then [DOT] + Trim(raw[8..]) else []
  }

  lemma StopBehind(name: seq<Byte>, d: nat, e: nat, rest: seq<Byte>)
    requires d < e <= |name| && rest == name[d + 1..]
    requires (e < |name| ==> name[e] == 0) && forall i | d < i < e :: name[i] != 0
    ensures Stop(rest, 0, 0) == e - d - 1
  {
    forall i | 0 <= i < e - d - 1 ensures rest[i] != 0 {
      assert rest[i] == name[d + 1 + i];
    }
    StopIs(rest, 0, 0, e - d - 1);
  }

  lemma ExtensionIs(name: seq<Byte>, d: nat, e: nat)
    requires d <= e <= |name| && Stop(name, DOT, 0) == d
    requires if d < |name| && name[d] == 0x2E then
               d < e && (e < |name| ==> name[e] == 0) && forall i | d < i < e :: name[i] != 0
             else e == d
    ensures Extension(name) == if d < e then name[d + 1..e] else []
  {
    if d < e {
      StopBehind(name, d, e, name[d + 1..]);
      TailSlice(name, d + 1, e);
    }
  }

  /** The packed form byte by byte. Its first eight bytes are the characters before the
      first dot or NUL, upper case, cut or padded with spaces; its last three are those
      between that dot and the next NUL. */
  lemma PackedBytes(name: seq<Byte>, d: nat, e: nat)
    requires d <= e <= |name| && (d < |name| ==> name[d] == 0x2E || name[d] == 0)
    requires forall i | 0 <= i < d :: name[i] != 0x2E && name[i] != 0
    requires if d < |name| && name[d] == 0x2E then
               d < e && (e < |name| ==> name[e] == 0) && forall i | d < i < e :: name[i] != 0
             else e == d
    ensures |Packed(name)| == 11
    ensures forall k | 0 <= k < 8 :: Packed(name)[k] == if k < d then Raised(name[k]) else 0x20
    ensures forall k | 8 <= k < 11 :: Packed(name)[k] == if d + k - 7 < e then Raised(name[d + k - 7]) else 0x20
  {
    StopIs(name, DOT, 0, d);
    ExtensionIs(name, d, e);
    var ext := Extension(name);
    var head, tail := Pad(UpAll(Cut(Base(name), 8)), 8), Pad(UpAll(Cut(ext, 3)), 3);
    assert Packed(name) == head + tail;
    forall k | 8 <= k < 11 ensures (head + tail)[k] == if d + k - 7 < e then Raised(name[d + k - 7]) else 0x20 {
      assert (head + tail)[k] == tail[k - 8];
    }
  }

  /** The dotted form: the bytes before the first space of the first eight and, unless
      the ninth is a space, a dot and those before the first space of the last three. */
  lemma DottedBytes(raw: seq<Byte>, n: nat, m: nat)
    requires |raw| == 11 && n <= 8 && m <= 3
    requires (n < 8 ==> raw[n] == 0x20) && forall i | 0 <= i < n :: raw[i] != 0x20
    requires (m < 3 ==> raw[8 + m] == 0x20) && forall i | 8 <= i < 8 + m :: raw[i] != 0x20
    ensures Dotted(raw) == raw[..n] + if m > 0 then [0x2E] + raw[8..8 + m] else []
  {
    StopIs(raw[..8], SPACE, SPACE, n);
    StopIs(raw[8..], SPACE, SPACE, m);
    TailSlice(raw, 8, 8 + m);
    assert raw[..8][..n] == raw[..n];
  }

  /** 'a' to 'z' become 'A' to 'Z'. */
  function Raised(c: Byte): Byte { if 0x61 <= c <= 0x7A then c - 0x20 else c }

  // ------------------------------------------------------------------
  // The conversions
  // ------------------------------------------------------------------

  method NameTo83(name: seq<Byte>) returns (out: array<Byte>)
    ensures fresh(out) && out[..] == Packed(name)
  {
    out := new Byte[11](_ => SPACE);
    var used := CopyBase(name, out);
    var i := used;
    while i < |name| && name[i] != 0 && name[i] != DOT
      invariant used <= i <= Stop(name, DOT, 0)
    {
      i := i + 1;
    }
    ghost var head := Pad(UpAll(Cut(Base(name), 8)), 8);
    FirstPart(head, Pad([], 3));
    if i < |name| && name[i] == DOT {
      assert out[..8] == head;
      CopyExtension(name, i + 1, out);
    } else {
      assert Extension(name) == [];
    }
  }

  /** The part before the dot, at most eight characters. */
  method CopyBase(name: seq<Byte>, out: array<Byte>) returns (used: nat)
    requires out.Length == 11 && forall k | 0 <= k < 11 :: out[k] == SPACE
    modifies out
    ensures used == |Cut(Base(name), 8)| && used <= Stop(name, DOT, 0)
    ensures out[..] == Pad(UpAll(Cut(Base(name), 8)), 8) + Pad([], 3)
  {
    var i, j := 0, 0;
    while i < |name| && name[i] != 0 && name[i] != DOT && j < 8
      invariant 0 <= i == j <= 8 && i <= Stop(name, DOT, 0)
      invariant forall k | 0 <= k < 11 :: out[k] == if k < j then Up(name[k]) else SPACE
    {
      out[j] := Up(name[i]);
      i, j := i + 1, j + 1;
    }
    used := j;
  }

  /** The part behind the dot, at most three characters. */
  method CopyExtension(name: seq<Byte>, at: nat, out: array<Byte>)
    requires out.Length == 11 && at <= |name| && forall k | 8 <= k < 11 :: out[k] == SPACE
    modifies out
    ensures var rest := name[at..];
            out[..] == old(out[..8]) + Pad(UpAll(Cut(rest[..Stop(rest, 0, 0)], 3)), 3)
  {
    ghost var rest := name[at..];
    var i, j := at, 8;
    while i < |name| && name[i] != 0 && j < 11
      invariant 8 <= j <= 11 && i == at + (j - 8) && j - 8 <= Stop(rest, 0, 0)
      invariant forall k | 0 <= k < 11 :: out[k] == if k < 8 then old(out[k])
                else if k < j then Up(rest[k - 8]) else SPACE
    {
      out[j] := Up(name[i]);
      i, j := i + 1, j + 1;
    }
  }

  method NameFrom83(raw: seq<Byte>) returns (out: seq<Byte>)
    requires |raw| == 11
    ensures out == Dotted(raw)
  {
    out := [];
    var i := 0;
    while i < 8 && raw[i] != SPACE
      invariant 0 <= i <= 8 && out == raw[..i] && forall k | 0 <= k < i :: raw[k] != SPACE
    {
      out := out + [raw[i]];
      i := i + 1;
    }
    StopIs(raw[..8], SPACE, SPACE, i);
    assert raw[..8][..i] == raw[..i];
    if raw[8] != SPACE {
      ghost var head := out;
      out := out + [DOT];
      i := 8;
      while i < 11 && raw[i] != SPACE
        invariant 8 <= i <= 11 && out == head + [DOT] + raw[8..i] && forall k | 8 <= k < i :: raw[k] != SPACE
      {
        SliceMore(raw, 8, i);
        out := out + [raw[i]];
        i := i + 1;
      }
      StopIs(raw[8..], SPACE, SPACE, i - 8);
      TailSlice(raw, 8, i);
    }
  }

  lemma SliceMore(s: seq<Byte>, lo: nat, i: nat)
    requires lo <= i < |s|
    ensures s[lo..i + 1] == s[lo..i] + [s[i]]
  {
  }

  lemma FirstPart(a: seq<Byte>, b: seq<Byte>)
    ensures (a + b)[..|a|] == a
  {
  }

  lemma TailSlice(s: seq<Byte>, lo: nat, hi: nat)
    requires lo <= hi <= |s|
    ensures s[lo..][..hi - lo] == s[lo..hi]
  {
  }

  // ------------------------------------------------------------------
  // Round trip
  // ------------------------------------------------------------------

  /** Spaces only at the end. */
  predicate Padded(s: seq<Byte>) { s == Pad(Trim(s), |s|) }

  /** Upper case, no NUL, padded, and no dot in the first eight bytes. */
  predicate Canonical(raw: seq<Byte>)
    requires |raw| == 11
  {
    && Padded(raw[..8]) && Padded(raw[8..])
    && (forall i | 0 <= i < 11 :: raw[i] != 0 && !Lower(raw[i]))
    && forall i | 0 <= i < 8 :: raw[i] != DOT
  }

  /** A padded name survives the way through its dotted form exactly when it is in
      the form the packing produces. */
  lemma RoundTripIff(raw: seq<Byte>)
    requires |raw| == 11
    ensures Packed(Dotted(raw)) == raw <==> Canonical(raw)
  {
    if Canonical(raw) {
      CanonicalReturns(raw);
    }
    if Packed(Dotted(raw)) == raw {
      ReturningIsCanonical(raw);
    }
  }

  lemma CanonicalReturns(raw: seq<Byte>)
    requires |raw| == 11 && Canonical(raw)
    ensures Packed(Dotted(raw)) == raw
  {
    var d, head, tail := Dotted(raw), Trim(raw[..8]), Trim(raw[8..]);
    assert forall i | 0 <= i < |head| :: head[i] == raw[i];
    assert forall i | 0 <= i < |tail| :: tail[i] == raw[8 + i];
    StopIs(d, DOT, 0, |head|);
    assert Base(d) == head;
    if raw[8] != SPACE {
      assert d[|head| + 1..] == tail;
      StopIs(tail, 0, 0, |tail|);
      assert Extension(d) == tail;
    } else {
      assert Extension(d) == [];
      StopIs(raw[8..], SPACE, SPACE, 0);
      assert tail == [];
    }
    assert UpAll(head) == head && UpAll(tail) == tail;
    assert raw == raw[..8] + raw[8..];
  }

  predicate Free(s: seq<Byte>, c: Byte) { forall i | 0 <= i < |s| :: s[i] != c }

  lemma DottedClean(raw: seq<Byte>)
    requires |raw| == 11
    ensures Free(Dotted(raw), SPACE)
  {
  }

  lemma PartsClean(d: seq<Byte>)
    requires Free(d, SPACE)
    ensures var b, e := Cut(Base(d), 8), Cut(Extension(d), 3);
            |b| <= 8 && |e| <= 3 && Free(b, SPACE) && Free(b, 0) && Free(b, DOT) && Free(e, SPACE) && Free(e, 0)
  {
  }

  lemma ReturningIsCanonical(raw: seq<Byte>)
    requires |raw| == 11 && Packed(Dotted(raw)) == raw
    ensures Canonical(raw)
  {
    DottedClean(raw);
    PartsClean(Dotted(raw));
    var b, e := Cut(Base(Dotted(raw)), 8), Cut(Extension(Dotted(raw)), 3);
    JoinedIsCanonical(raw, b, e);
  }

  lemma JoinedIsCanonical(raw: seq<Byte>, b: seq<Byte>, e: seq<Byte>)
    requires |b| <= 8 && |e| <= 3 && Free(b, SPACE) && Free(b, 0) && Free(b, DOT) && Free(e, SPACE) && Free(e, 0)
    requires raw == Pad(UpAll(b), 8) + Pad(UpAll(e), 3)
    ensures |raw| == 11 && Canonical(raw)
  {
  }
}
