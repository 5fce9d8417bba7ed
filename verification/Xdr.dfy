/**
  The XDR cursor of the NFS server (RFC 1014): big-endian words, opaque data padded to
  four bytes, and an error flag that stays set. The class works in place on a buffer; the
  functions say what the bytes mean and are what the rest of the server model reads with.
*/
module Xdr {
  import opened Bytes

  function Pad(n: nat): nat { (4 - n % 4) % 4 }

  function Zeros(n: nat): seq<byte> { seq(n, _ => 0) }

  // ---------------------------------------------------------------- what is written

  function U32Bytes(v: u32): (s: seq<byte>)
    ensures |s| == 4
  {
    [v / 0x100_0000, v / 0x1_0000 % 256, v / 0x100 % 256, v % 256]
  }

  function FixedBytes(p: seq<byte>): (s: seq<byte>)
    ensures |s| == |p| + Pad(|p|)
  {
    p + Zeros(Pad(|p|))
  }

  function OpaqueBytes(p: seq<byte>): (s: seq<byte>)
    requires |p| < 0x1_0000_0000
    ensures |s| == 4 + |p| + Pad(|p|)
  {
    U32Bytes(|p|) + FixedBytes(p)
  }

  // ---------------------------------------------------------------- what is read: the value and the new position

  function GetU32(s: seq<byte>, pos: nat): (r: Option<(u32, nat)>)
    ensures r.Some? <==> pos + 4 <= |s|
    ensures r.Some? ==> r.value.1 == pos + 4
  {
    if pos + 4 > |s| then None
    else
      var b0: int, b1: int, b2: int, b3: int := s[pos], s[pos + 1], s[pos + 2], s[pos + 3];
      Some((b0 * 0x100_0000 + b1 * 0x1_0000 + b2 * 0x100 + b3, pos + 4))
  }

  function GetFixed(s: seq<byte>, pos: nat, n: nat): (r: Option<(seq<byte>, nat)>)
    ensures r.Some? <==> pos + n + Pad(n) <= |s|
    ensures r.Some? ==> |r.value.0| == n && r.value.1 == pos + n + Pad(n)
  {
    if pos + n + Pad(n) > |s| then None else Some((s[pos..pos + n], pos + n + Pad(n)))
  }

  function GetBytes(s: seq<byte>, pos: nat): (r: Option<(seq<byte>, nat)>)
    ensures r.Some? ==> pos + 4 <= r.value.1 <= |s|
  {
    var (n, pos1) :- GetU32(s, pos);
    GetFixed(s, pos1, n)
  }

  /** A counted string read as a C string: shorter than `max`, and ending at the first NUL. */
  function GetString(s: seq<byte>, pos: nat, max: nat): (r: Option<(seq<byte>, nat)>)
    ensures r.Some? ==> |r.value.0| < max && 0 !in r.value.0
  {
    var (p, pos1) :- GetBytes(s, pos);
    if |p| >= max then None else Some((CString(p), pos1))
  }

  function CString(p: seq<byte>): (s: seq<byte>)
    ensures 0 !in s && |s| <= |p|
  {
    if p == [] || p[0] == 0 then [] else [p[0]] + CString(p[1..])
  }

  // ---------------------------------------------------------------- reading back what was written

  datatype Item = U32(v: u32) | Fixed(p: seq<byte>) | Opaque(p: seq<byte>) {
    predicate Fits() { U32? || |p| < 0x1_0000_0000 }
  }

  /** What a reader asks for: it must know the length of fixed data, not of counted data. */
  datatype Want = WantU32 | WantFixed(n: nat) | WantOpaque

  predicate AllFit(items: seq<Item>) {
    forall it :: it in items ==> it.Fits()
  }

  function ItemBytes(it: Item): (s: seq<byte>)
    requires it.Fits()
  {
    match it
    case U32(v) => U32Bytes(v)
    case Fixed(p) => FixedBytes(p)
    case Opaque(p) => OpaqueBytes(p)
  }

  function Encodings(items: seq<Item>): (es: seq<seq<byte>>)
    requires AllFit(items)
    ensures |es| == |items| && forall i :: 0 <= i < |items| ==> items[i].Fits() && es[i] == ItemBytes(items[i])
  {
    assert forall i :: 0 <= i < |items| ==> items[i] in items;
    seq(|items|, i requires 0 <= i < |items| => ItemBytes(items[i]))
  }

  function ItemsBytes(items: seq<Item>): seq<byte>
    requires AllFit(items)
  {
    Flatten(Encodings(items))
  }

  function WantOf(it: Item): Want {
    match it case U32(_) => WantU32 case Fixed(p) => WantFixed(|p|) case Opaque(_) => WantOpaque
  }

  function GetItem(s: seq<byte>, pos: nat, w: Want): Option<(Item, nat)> {
    match w
    case WantU32 => var (v, q) :- GetU32(s, pos); Some((U32(v), q))
    case WantFixed(n) => var (p, q) :- GetFixed(s, pos, n); Some((Fixed(p), q))
    case WantOpaque => var (p, q) :- GetBytes(s, pos); Some((Opaque(p), q))
  }

  lemma WordReadsBack(v: u32, s: seq<byte>, pos: nat)
    requires pos + 4 <= |s| && s[pos..pos + 4] == U32Bytes(v)
    ensures GetU32(s, pos) == Some((v, pos + 4))
  {
    var w := s[pos..pos + 4];
    assert w[0] == s[pos] && w[1] == s[pos + 1] && w[2] == s[pos + 2] && w[3] == s[pos + 3];
    assert v / 0x100 / 0x100 == v / 0x1_0000;
    assert v / 0x1_0000 / 0x100 == v / 0x100_0000;
  }

  lemma FixedReadsBack(p: seq<byte>, s: seq<byte>, pos: nat)
    requires pos + |p| + Pad(|p|) <= |s| && s[pos..pos + |p| + Pad(|p|)] == FixedBytes(p)
    ensures GetFixed(s, pos, |p|) == Some((p, pos + |p| + Pad(|p|)))
  {
    assert s[pos..pos + |p| + Pad(|p|)][..|p|] == s[pos..pos + |p|];
  }

  lemma OpaqueReadsBack(p: seq<byte>, s: seq<byte>, pos: nat)
    requires |p| < 0x1_0000_0000
    requires pos + 4 + |p| + Pad(|p|) <= |s| && s[pos..pos + 4 + |p| + Pad(|p|)] == OpaqueBytes(p)
    ensures GetBytes(s, pos) == Some((p, pos + 4 + |p| + Pad(|p|)))
  {
    var all := s[pos..pos + 4 + |p| + Pad(|p|)];
    assert all[..4] == U32Bytes(|p|) && all[4..] == FixedBytes(p);
    assert all[..4] == s[pos..pos + 4] && all[4..] == s[pos + 4..pos + 4 + |p| + Pad(|p|)];
    WordReadsBack(|p|, s, pos);
    FixedReadsBack(p, s, pos + 4);
  }

  lemma ItemReadsBack(it: Item, s: seq<byte>, pos: nat)
    requires it.Fits() && pos + |ItemBytes(it)| <= |s| && s[pos..pos + |ItemBytes(it)|] == ItemBytes(it)
    ensures GetItem(s, pos, WantOf(it)) == Some((it, pos + |ItemBytes(it)|))
  {
    match it
    case U32(v) => WordReadsBack(v, s, pos);
    case Fixed(p) => FixedReadsBack(p, s, pos);
    case Opaque(p) => OpaqueReadsBack(p, s, pos);
  }

  lemma PadAligns(n: nat)
    ensures (n + Pad(n)) % 4 == 0
  {
  }

  lemma SumAligns(a: nat, b: nat)
    requires a % 4 == 0 && b % 4 == 0
    ensures (a + b) % 4 == 0
  {
  }

  lemma ItemAligned(it: Item)
    requires it.Fits()
    ensures |ItemBytes(it)| % 4 == 0
  {
    match it
    case U32(_) =>
    case Fixed(p) => PadAligns(|p|);
    case Opaque(p) => PadAligns(|p|); SumAligns(4, |p| + Pad(|p|));
  }

  lemma {:induction false} PartsAlign(parts: seq<seq<byte>>)
    requires forall i :: 0 <= i < |parts| ==> |parts[i]| % 4 == 0
    ensures |Flatten(parts)| % 4 == 0
  {
    if parts != [] {
      PartsAlign(parts[1..]);
      SumAligns(|parts[0]|, |Flatten(parts[1..])|);
    }
  }

  lemma ItemsAligned(items: seq<Item>, n: nat)
    requires AllFit(items) && n <= |items|
    ensures |Flatten(Encodings(items)[..n])| % 4 == 0
  {
    var parts := Encodings(items)[..n];
    forall i | 0 <= i < n ensures |parts[i]| % 4 == 0 { ItemAligned(items[i]); }
    PartsAlign(parts);
  }

  /** Reading the `i`-th item where the items before it end gives that item, on a word boundary. */
  lemma NthReadsBack(items: seq<Item>, i: nat)
    requires i < |items| && AllFit(items)
    ensures GetItem(ItemsBytes(items), |Flatten(Encodings(items)[..i])|, WantOf(items[i]))
         == Some((items[i], |Flatten(Encodings(items)[..i + 1])|))
    ensures |Flatten(Encodings(items)[..i])| % 4 == 0
  {
    FlattenAt(Encodings(items), i);
    ItemReadsBack(items[i], ItemsBytes(items), |Flatten(Encodings(items)[..i])|);
    ItemsAligned(items, i);
  }

  /** The number a string of bytes writes in base 256, its first byte the highest. */
  function Base256(s: seq<byte>): nat {
    if s == [] then 0 else Base256(s[..|s| - 1]) * 256 + s[|s| - 1]
  }

  lemma FourBytes(s: seq<byte>, b0: int, b1: int, b2: int, b3: int)
    requires |s| == 4 && s[0] == b0 && s[1] == b1 && s[2] == b2 && s[3] == b3
    ensures Base256(s) == ((b0 * 256 + b1) * 256 + b2) * 256 + b3
  {
    assert s[..3][..2] == s[..2] && s[..2][..1] == s[..1] && s[..1][..0] == [];
    assert Base256(s[..1]) == b0;
    assert Base256(s[..2]) == b0 * 256 + b1;
    assert Base256(s[..3]) == Base256(s[..2]) * 256 + b2;
  }

  /** Words are big-endian, read or written. */
  lemma WordsAreBigEndian(v: u32, s: seq<byte>, pos: nat)
    ensures Base256(U32Bytes(v)) == v
    ensures pos + 4 <= |s| ==> GetU32(s, pos) == Some((Base256(s[pos..pos + 4]), pos + 4))
  {
    var w := U32Bytes(v);
    FourBytes(w, w[0], w[1], w[2], w[3]);
    WordReadsBack(v, w, 0);
    if pos + 4 <= |s| { FourBytes(s[pos..pos + 4], s[pos], s[pos + 1], s[pos + 2], s[pos + 3]); }
  }

  /** Data is followed by the fewest zeros that bring it to a word boundary. */
  lemma PaddedWithZeros(p: seq<byte>)
    ensures var f := FixedBytes(p);
      && |f| % 4 == 0 && |p| <= |f| < |p| + 4 && p <= f && forall k :: |p| <= k < |f| ==> f[k] == 0
  {
    PadAligns(|p|);
  }

  /** A C string is what stands before the first NUL. */
  lemma {:induction false} CStringCuts(p: seq<byte>)
    ensures var c := CString(p); c <= p && (|c| < |p| ==> p[|c|] == 0)
  {
    if p != [] && p[0] != 0 { CStringCuts(p[1..]); }
  }

  // ---------------------------------------------------------------- the cursor

  class Cursor {
    const buf: array<byte>
    const cap: nat
    var pos: nat
    var err: bool

    ghost predicate Valid()
      reads this
    {
      pos <= cap <= buf.Length && cap < 0x1_0000_0000
    }

    ghost function Done(): seq<byte>
      requires Valid()
      reads this, buf
    {
      buf[..pos]
    }

    constructor (b: array<byte>, n: nat)
      requires n <= b.Length && n < 0x1_0000_0000
      ensures Valid() && buf == b && cap == n && pos == 0 && !err
    {
      buf, cap, pos, err := b, n, 0, false;
    }

    method Need(n: nat) returns (ok: bool)
      requires Valid()
      modifies `err
      ensures Valid() && ok == (!old(err) && pos + n <= cap) && err == !ok
    {
      if err || pos + n > cap {
        err := true;
        return false;
      }
      return true;
    }

    /** Reads either give what the bytes at the cursor mean and move past them, or set the error flag. */
    method ReadU32() returns (r: Option<u32>)
      requires Valid()
      modifies `pos, `err
      ensures Valid()
      ensures var g := GetU32(buf[..cap], old(pos));
              if !old(err) && g.Some? then r == Some(g.value.0) && pos == g.value.1 && !err
              else r == None && err && pos == old(pos)
    {
      var ok := Need(4);
      if !ok { return None; }
      ghost var s := buf[..cap];
      var b0: int, b1: int, b2: int, b3: int := buf[pos], buf[pos + 1], buf[pos + 2], buf[pos + 3];
      assert b0 == s[pos] && b1 == s[pos + 1] && b2 == s[pos + 2] && b3 == s[pos + 3];
      pos := pos + 4;
      return Some(b0 * 0x100_0000 + b1 * 0x1_0000 + b2 * 0x100 + b3);
    }

    method ReadFixed(len: u32) returns (r: Option<seq<byte>>)
      requires Valid()
      modifies `pos, `err
      ensures Valid()
      ensures var g := GetFixed(buf[..cap], old(pos), len);
              if !old(err) && g.Some? then r == Some(g.value.0) && pos == g.value.1 && !err
              else r == None && err && pos == old(pos)
    {
      var pad := Pad(len);
      var ok := Need(len + pad);
      if !ok { return None; }
      r := Some(buf[pos..pos + len]);
      assert buf[..cap][pos..pos + len] == buf[pos..pos + len];
      pos := pos + len + pad;
    }

    method ReadBytes() returns (r: Option<seq<byte>>)
      requires Valid()
      modifies `pos, `err
      ensures Valid()
      ensures var g := GetBytes(buf[..cap], old(pos));
              if !old(err) && g.Some? then r == Some(g.value.0) && pos == g.value.1 && !err
              else r == None && err
    {
      var n :- ReadU32();
      var ok := Need(n);
      if !ok { return None; }
      var p := buf[pos..pos + n];
      assert buf[..cap][pos..pos + n] == p;
      var pad := Pad(n);
      ok := Need(n + pad);
      if !ok { return None; }
      pos := pos + n + pad;
      return Some(p);
    }

    method ReadString(max: nat) returns (r: Option<seq<byte>>)
      requires Valid()
      modifies `pos, `err
      ensures Valid()
      ensures var g := GetString(buf[..cap], old(pos), max);
              if !old(err) && g.Some? then r == Some(g.value.0) && pos == g.value.1 && !err
              else r == None && err
    {
      var p :- ReadBytes();
      if |p| >= max {
        err := true;
        return None;
      }
      return Some(CString(p));
    }

    /** Writes either append exactly the encoding or set the error flag and move nothing. */
    method WriteU32(v: u32) returns (ok: bool)
      requires Valid()
      modifies this, buf
      ensures Valid() && ok == !err == (!old(err) && old(pos) + 4 <= cap)
      ensures if ok then Done() == old(Done()) + U32Bytes(v) else Done() == old(Done())
    {
      ok := Need(4);
      if !ok { return; }
      buf[pos], buf[pos + 1] := v / 0x100_0000, v / 0x1_0000 % 256;
      buf[pos + 2], buf[pos + 3] := v / 0x100 % 256, v % 256;
      pos := pos + 4;
    }

    method WriteFixed(p: seq<byte>) returns (ok: bool)
      requires Valid()
      modifies this, buf
      ensures Valid() && ok == !err == (!old(err) && old(pos) + |p| + Pad(|p|) <= cap)
      ensures if ok then Done() == old(Done()) + FixedBytes(p) else Done() == old(Done())
    {
      var pad := Pad(|p|);
      ok := Need(|p| + pad);
      if !ok { return; }
      Copy(p, pos);
      Copy(Zeros(pad), pos + |p|);
      pos := pos + |p| + pad;
    }

    /** memcpy into the buffer at `at`. */
    method Copy(p: seq<byte>, at: nat)
      requires at + |p| <= buf.Length
      modifies buf
      ensures buf[..at + |p|] == old(buf[..at]) + p
    {
      for j := 0 to |p|
        invariant buf[..at + j] == old(buf[..at]) + p[..j]
      {
        buf[at + j] := p[j];
      }
    }

    method WriteBytes(p: seq<byte>) returns (ok: bool)
      requires Valid() && |p| < 0x1_0000_0000
      modifies this, buf
      ensures Valid() && ok == !err
      ensures ok == (!old(err) && old(pos) + |OpaqueBytes(p)| <= cap)
      ensures ok ==> Done() == old(Done()) + OpaqueBytes(p)
      ensures !ok ==> old(Done()) <= Done()
    {
      ok := WriteU32(|p|);
      if !ok { return; }
      ok := WriteFixed(p);
    }

    method WriteItem(it: Item) returns (ok: bool)
      requires Valid() && it.Fits()
      modifies this, buf
      ensures Valid() && ok == !err == (!old(err) && old(pos) + |ItemBytes(it)| <= cap)
      ensures ok ==> Done() == old(Done()) + ItemBytes(it)
    {
      match it
      case U32(v) => ok := WriteU32(v);
      case Fixed(p) => ok := WriteFixed(p);
      case Opaque(p) => ok := WriteBytes(p);
    }

    method ReadItem(w: Want) returns (r: Option<Item>)
      requires Valid() && (w.WantFixed? ==> w.n < 0x1_0000_0000)
      modifies `pos, `err
      ensures Valid()
      ensures var g := GetItem(buf[..cap], old(pos), w);
              if !old(err) && g.Some? then r == Some(g.value.0) && pos == g.value.1 && !err
              else r == None && err
    {
      match w
      case WantU32 => var v :- ReadU32(); return Some(U32(v));
      case WantFixed(n) => var p :- ReadFixed(n); return Some(Fixed(p));
      case WantOpaque => var p :- ReadBytes(); return Some(Opaque(p));
    }
  }

  method PutItems(out: Cursor, items: seq<Item>)
    requires out.Valid() && out.pos == 0 && !out.err && AllFit(items)
    modifies out, out.buf
    ensures out.Valid()
    ensures out.err <==> |ItemsBytes(items)| > out.cap
    ensures !out.err ==> out.Done() == ItemsBytes(items)
  {
    ghost var es := Encodings(items);
    for i := 0 to |items|
      invariant out.Valid()
      invariant !out.err ==> out.Done() == Flatten(es[..i])
      invariant out.err <==> |Flatten(es[..i])| > out.cap
    {
      assert es[..i + 1] == es[..i] + [es[i]];
      FlattenSnoc(es[..i], es[i]);
      var _ := out.WriteItem(items[i]);
    }
    assert es[..|items|] == es;
  }

  method GetNth(input: Cursor, want: Want, ghost items: seq<Item>, ghost i: nat) returns (it: Item)
    requires input.Valid() && !input.err && AllFit(items) && i < |items| && want == WantOf(items[i])
    requires input.buf[..input.cap] == ItemsBytes(items) && input.pos == |Flatten(Encodings(items)[..i])|
    modifies input
    ensures input.Valid() && !input.err && it == items[i] && input.pos == |Flatten(Encodings(items)[..i + 1])|
  {
    assert items[i] in items;
    NthReadsBack(items, i);
    var r := input.ReadItem(want);
    return r.value;
  }

  method GetItems(input: Cursor, wants: seq<Want>, ghost items: seq<Item>) returns (got: seq<Item>)
    requires |wants| == |items| && forall i :: 0 <= i < |wants| ==> wants[i] == WantOf(items[i])
    requires input.Valid() && input.pos == 0 && !input.err && AllFit(items)
    requires input.buf[..input.cap] == ItemsBytes(items)
    modifies input
    ensures input.Valid() && !input.err && got == items && input.pos == |ItemsBytes(items)|
  {
    got := [];
    ghost var es := Encodings(items);
    for i := 0 to |wants|
      invariant input.Valid() && !input.err
      invariant got == items[..i] && input.pos == |Flatten(es[..i])|
    {
      var it := GetNth(input, wants[i], items, i);
      got := got + [it];
    }
    assert es[..|items|] == es && items[..|items|] == items;
  }

  /**
    Every list of items put through one cursor and read through another comes back
    unchanged, exactly when its encoding fits the buffer.
  */
  method Echo(items: seq<Item>, cap: nat) returns (back: Option<seq<Item>>)
    requires AllFit(items) && cap < 0x1_0000_0000
    ensures back == if |ItemsBytes(items)| <= cap then Some(items) else None
  {
    var buf := new byte[cap];
    var out := new Cursor(buf, cap);
    PutItems(out, items);
    if out.err { return None; }
    var input := new Cursor(buf, out.pos);
    var got := GetItems(input, seq(|items|, i requires 0 <= i < |items| => WantOf(items[i])), items);
    return Some(got);
  }
}
