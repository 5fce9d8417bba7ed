/**
  Wire text normalisation on macOS: Hangul composition over a UTF-8 byte stream that
  arrives in arbitrary chunks.

  The reference form works on code points: `Scan` reads a whole byte string, `Compose`
  folds `Push` over the code points (a jamo joins the last unit written, section 3.12 of
  the Unicode Standard), `Encode` writes them back. The running form, `ComposeBuffer`,
  `SafeEnd` and the class `TxtStream`, looks ahead in a byte buffer and holds back a
  tail between calls.
*/
module TextCv {
  import opened Bytes

  const JOIN_MAX := 8192
  const PEND_MAX := 16

  const L_BASE := 0x1100
  const V_BASE := 0x1161
  const T_BASE := 0x11A7
  const S_BASE := 0xAC00
  const L_CNT := 19
  const V_CNT := 21
  const T_CNT := 28
  const N_CNT := 588
  const S_CNT := 11172

  /** What `u8enc` can write and `u8dec` can read: 21 bits. */
  type CodePoint = c: int | 0 <= c < 0x20_0000

  predicate IsL(c: int) { L_BASE <= c < L_BASE + L_CNT }
  predicate IsV(c: int) { V_BASE <= c < V_BASE + V_CNT }
  predicate IsT(c: int) { T_BASE < c < T_BASE + T_CNT }
  predicate IsS(c: int) { S_BASE <= c < S_BASE + S_CNT }
  predicate IsLV(c: int) { IsS(c) && (c - S_BASE) % T_CNT == 0 }

  // ---------------------------------------------------------------- one character

  datatype Dec = Incomplete | Invalid | Char(cp: CodePoint, used: nat)

  /** The low six bits of a byte. */
  function Six(b: byte): (v: int)
    ensures 0 <= v < 64
  {
    b % 64
  }

  /** One UTF-8 character at position `i`. Continuation bytes are masked, not checked. */
  function U8Dec(p: seq<byte>, i: nat): (d: Dec)
    requires i < |p|
    ensures d.Char? ==> 1 <= d.used <= 4 && i + d.used <= |p| && EncLen(d.cp) <= d.used
    ensures d.Incomplete? ==> |p| < i + 4
  {
    var b0: int := p[i];
    if b0 < 0x80 then Char(b0, 1)
    else if 0xC0 <= b0 < 0xE0 then
      if |p| < i + 2 then Incomplete else Char((b0 - 0xC0) * 64 + Six(p[i + 1]), 2)
    else if 0xE0 <= b0 < 0xF0 then
      if |p| < i + 3 then Incomplete else Char((b0 - 0xE0) * 4096 + Six(p[i + 1]) * 64 + Six(p[i + 2]), 3)
    else if 0xF0 <= b0 < 0xF8 then
      if |p| < i + 4 then Incomplete
      else Char((b0 - 0xF0) * 262144 + Six(p[i + 1]) * 4096 + Six(p[i + 2]) * 64 + Six(p[i + 3]), 4)
    else Invalid
  }

  /** Bytes `u8enc` writes for a code point. */
  function EncLen(c: CodePoint): nat {
    if c < 0x80 then 1 else if c < 0x800 then 2 else if c < 0x10000 then 3 else 4
  }

  function U8Enc(c: CodePoint): (out: seq<byte>)
    ensures |out| == EncLen(c)
  {
    if c < 0x80 then [c]
    else if c < 0x800 then [0xC0 + c / 64, 0x80 + c % 64]
    else if c < 0x10000 then [0xE0 + c / 4096, 0x80 + c / 64 % 64, 0x80 + c % 64]
    else [0xF0 + c / 262144, 0x80 + c / 4096 % 64, 0x80 + c / 64 % 64, 0x80 + c % 64]
  }

  /** Decoding what was encoded gives the code point back, whatever follows it. */
  lemma EncDec(c: CodePoint, rest: seq<byte>)
    ensures U8Dec(U8Enc(c) + rest, 0) == Char(c, |U8Enc(c)|)
  {
    var p := U8Enc(c) + rest;
    if c < 0x80 {
      assert p[0] == c;
    } else if c < 0x800 {
      Tail(c % 64);
      assert p[0] == 0xC0 + c / 64 && p[1] == 0x80 + c % 64;
    } else if c < 0x10000 {
      assert p[0] == 0xE0 + c / 4096 && p[1] == 0x80 + c / 64 % 64 && p[2] == 0x80 + c % 64;
      DecThree(c, p);
    } else {
      assert p[0] == 0xF0 + c / 262144 && p[1] == 0x80 + c / 4096 % 64;
      assert p[2] == 0x80 + c / 64 % 64 && p[3] == 0x80 + c % 64;
      DecFour(c, p);
    }
  }

  lemma DecThree(c: CodePoint, p: seq<byte>)
    requires c < 0x10000 && |p| >= 3
    requires p[0] == 0xE0 + c / 4096 && p[1] == 0x80 + c / 64 % 64 && p[2] == 0x80 + c % 64
    ensures U8Dec(p, 0) == Char(c, 3)
  {
    Tail(c % 64);
    Tail(c / 64 % 64);
    Shifts(c);
  }

  lemma DecFour(c: CodePoint, p: seq<byte>)
    requires |p| >= 4 && p[0] == 0xF0 + c / 262144 && p[1] == 0x80 + c / 4096 % 64
    requires p[2] == 0x80 + c / 64 % 64 && p[3] == 0x80 + c % 64
    ensures U8Dec(p, 0) == Char(c, 4)
  {
    Tail(c % 64);
    Tail(c / 64 % 64);
    Tail(c / 4096 % 64);
    Shifts(c);
  }

  lemma Tail(x: int)
    requires 0 <= x < 64
    ensures Six(0x80 + x) == x
  {
  }

  lemma Shifts(c: CodePoint)
    ensures c == c / 64 * 64 + c % 64
    ensures c == c / 4096 * 4096 + c / 64 % 64 * 64 + c % 64
    ensures c == c / 262144 * 262144 + c / 4096 % 64 * 4096 + c / 64 % 64 * 64 + c % 64
  {
    assert c / 64 / 64 == c / 4096;
    assert c / 4096 / 64 == c / 262144;
  }

  // ---------------------------------------------------------------- reference form

  /** A unit of text: a code point, or a byte that starts no character and passes through. */
  datatype Unit = Raw(b: byte) | Cp(c: CodePoint)

  /** The units of a byte string from position `i` on; a truncated last character is dropped. */
  function ScanFrom(s: seq<byte>, i: nat): seq<Unit>
    requires i <= |s|
    decreases |s| - i
  {
    if i == |s| then []
    else match U8Dec(s, i)
      case Incomplete => []
      case Invalid => [Raw(s[i])] + ScanFrom(s, i + 1)
      case Char(c, k) => [Cp(c)] + ScanFrom(s, i + k)
  }

  function Scan(s: seq<byte>): seq<Unit> { ScanFrom(s, 0) }

  /** A whole character or raw byte starts at `i`. */
  predicate Starts(s: seq<byte>, i: nat) {
    i < |s| && !U8Dec(s, i).Incomplete?
  }

  function HeadUnit(s: seq<byte>, i: nat): Unit
    requires Starts(s, i)
  {
    var d := U8Dec(s, i);
    if d.Char? then Cp(d.cp) else Raw(s[i])
  }

  function HeadLen(s: seq<byte>, i: nat): (k: nat)
    requires Starts(s, i)
    ensures 1 <= k <= 4 && i + k <= |s|
  {
    var d := U8Dec(s, i);
    if d.Char? then d.used else 1
  }

  /** From `i` on, the byte string is made of whole characters and raw bytes. */
  predicate WholeFrom(s: seq<byte>, i: nat)
    requires i <= |s|
    decreases |s| - i
  {
    i == |s| || (Starts(s, i) && WholeFrom(s, i + HeadLen(s, i)))
  }

  predicate Whole(s: seq<byte>) { WholeFrom(s, 0) }

  function UnitLen(u: Unit): nat {
    match u case Raw(_) => 1 case Cp(c) => EncLen(c)
  }

  function EncodeUnit(u: Unit): (e: seq<byte>)
    ensures |e| == UnitLen(u)
  {
    match u case Raw(b) => [b] case Cp(c) => U8Enc(c)
  }

  function Encode(us: seq<Unit>): seq<byte> {
    if us == [] then [] else EncodeUnit(us[0]) + Encode(us[1..])
  }

  /** L + V, or LV + T. */
  predicate Joins(a: Unit, b: Unit) {
    a.Cp? && b.Cp? && ((IsL(a.c) && IsV(b.c)) || (IsLV(a.c) && IsT(b.c)))
  }

  function Join(a: Unit, b: Unit): (u: Unit)
    requires Joins(a, b)
    ensures u.Cp? && IsS(u.c)
    ensures IsL(a.c) ==> IsLV(u.c)
    ensures IsLV(a.c) ==> !IsLV(u.c)
  {
    if IsL(a.c) then Cp(S_BASE + (a.c - L_BASE) * N_CNT + (b.c - V_BASE) * T_CNT)
    else Cp(a.c + (b.c - T_BASE))
  }

  /** Write one unit after `out`, joining it to the last unit written when they compose. */
  function Push(out: seq<Unit>, u: Unit): (r: seq<Unit>)
    ensures r != []
  {
    if out != [] && Joins(out[|out| - 1], u) then out[..|out| - 1] + [Join(out[|out| - 1], u)]
    else out + [u]
  }

  function Fold(out: seq<Unit>, us: seq<Unit>): seq<Unit>
    decreases |us|
  {
    if us == [] then out else Fold(Push(out, us[0]), us[1..])
  }

  function Compose(us: seq<Unit>): seq<Unit> { Fold([], us) }

  /** The composed form of a whole byte stream. */
  function ComposeBytes(s: seq<byte>): seq<byte> { Encode(Compose(Scan(s))) }

  // ---------------------------------------------------------------- scanning and encoding distribute

  lemma ScanOne(s: seq<byte>, i: nat)
    requires Starts(s, i)
    ensures ScanFrom(s, i) == [HeadUnit(s, i)] + ScanFrom(s, i + HeadLen(s, i))
  {
  }

  /** What is read at `i` depends on the bytes read only. */
  lemma DecLocal(s: seq<byte>, i: nat, t: seq<byte>, j: nat)
    requires Starts(s, i) && j + HeadLen(s, i) <= |t|
    requires s[i..i + HeadLen(s, i)] == t[j..j + HeadLen(s, i)]
    ensures U8Dec(t, j) == U8Dec(s, i)
  {
    var k := HeadLen(s, i);
    var w := s[i..i + k];
    assert forall n :: 0 <= n < k ==> s[i + n] == w[n] == t[j + n];
    assert t[j] == s[i];
    if k > 1 { assert t[j + 1] == s[i + 1]; }
    if k > 2 { assert t[j + 2] == s[i + 2]; }
    if k > 3 { assert t[j + 3] == s[i + 3]; }
  }

  lemma DecShift(a: seq<byte>, b: seq<byte>, j: nat)
    requires j < |b|
    ensures U8Dec(a + b, |a| + j) == U8Dec(b, j)
  {
    var s, i := a + b, |a| + j;
    assert s[i] == b[j];
    if j + 1 < |b| { assert s[i + 1] == b[j + 1]; }
    if j + 2 < |b| { assert s[i + 2] == b[j + 2]; }
    if j + 3 < |b| { assert s[i + 3] == b[j + 3]; }
  }

  lemma {:induction false} ScanShift(a: seq<byte>, b: seq<byte>, j: nat)
    requires j <= |b|
    ensures ScanFrom(a + b, |a| + j) == ScanFrom(b, j)
    ensures WholeFrom(a + b, |a| + j) == WholeFrom(b, j)
    decreases |b| - j
  {
    if j < |b| {
      DecShift(a, b, j);
      if Starts(b, j) {
        SameHead(b, j, a + b, |a| + j);
        ScanOne(b, j);
        ScanOne(a + b, |a| + j);
        ScanShift(a, b, j + HeadLen(b, j));
      }
    }
  }

  lemma SameHead(s: seq<byte>, i: nat, t: seq<byte>, j: nat)
    requires Starts(s, i) && j < |t| && s[i] == t[j] && U8Dec(t, j) == U8Dec(s, i)
    ensures Starts(t, j) && HeadLen(t, j) == HeadLen(s, i) && HeadUnit(t, j) == HeadUnit(s, i)
  {
  }

  lemma HeadAppend(a: seq<byte>, b: seq<byte>, i: nat)
    requires Starts(a, i)
    ensures Starts(a + b, i) && HeadLen(a + b, i) == HeadLen(a, i) && HeadUnit(a + b, i) == HeadUnit(a, i)
  {
    var k := HeadLen(a, i);
    assert a[i..i + k] == (a + b)[i..i + k];
    DecLocal(a, i, a + b, i);
  }

  lemma {:induction false} ScanAppendFrom(a: seq<byte>, b: seq<byte>, i: nat)
    requires i <= |a| && WholeFrom(a, i)
    ensures ScanFrom(a + b, i) == ScanFrom(a, i) + Scan(b)
    ensures WholeFrom(a + b, i) == Whole(b)
    decreases |a| - i
  {
    if i == |a| {
      ScanShift(a, b, 0);
    } else {
      HeadAppend(a, b, i);
      ScanOne(a, i);
      ScanOne(a + b, i);
      ScanAppendFrom(a, b, i + HeadLen(a, i));
      Assoc([HeadUnit(a, i)], ScanFrom(a, i + HeadLen(a, i)), Scan(b));
    }
  }

  lemma ScanAppend(a: seq<byte>, b: seq<byte>)
    requires Whole(a)
    ensures Scan(a + b) == Scan(a) + Scan(b)
    ensures Whole(a + b) == Whole(b)
  {
    ScanAppendFrom(a, b, 0);
  }

  lemma {:induction false} EncodeAppend(us: seq<Unit>, vs: seq<Unit>)
    ensures Encode(us + vs) == Encode(us) + Encode(vs)
  {
    if us == [] {
      assert us + vs == vs;
    } else {
      assert (us + vs)[1..] == us[1..] + vs;
      EncodeAppend(us[1..], vs);
    }
  }

  // ---------------------------------------------------------------- composition distributes over a closed cut

  /** Nothing in `us` can join the end of `out`. */
  predicate ClosedBefore(out: seq<Unit>, us: seq<Unit>) {
    out == [] || us == [] || !Joins(out[|out| - 1], us[0])
  }

  lemma {:induction false} FoldAppend(out: seq<Unit>, us: seq<Unit>, vs: seq<Unit>)
    ensures Fold(out, us + vs) == Fold(Fold(out, us), vs)
    decreases |us|
  {
    if us == [] {
      assert us + vs == vs;
    } else {
      assert (us + vs)[1..] == us[1..] + vs;
      FoldAppend(Push(out, us[0]), us[1..], vs);
    }
  }

  lemma {:induction false} FoldFrame(pre: seq<Unit>, out: seq<Unit>, us: seq<Unit>)
    requires out != []
    ensures Fold(pre + out, us) == pre + Fold(out, us)
    decreases |us|
  {
    if us != [] {
      var j := |out| - 1;
      assert (pre + out)[..|pre| + j] == pre + out[..j];
      assert Push(pre + out, us[0]) == pre + Push(out, us[0]);
      FoldFrame(pre, Push(out, us[0]), us[1..]);
    }
  }

  lemma FoldClosed(out: seq<Unit>, us: seq<Unit>)
    requires ClosedBefore(out, us)
    ensures Fold(out, us) == out + Compose(us)
  {
    if us != [] {
      assert Push(out, us[0]) == out + [us[0]];
      assert Push([], us[0]) == [us[0]];
      FoldFrame(out, [us[0]], us[1..]);
    }
  }

  /** The last unit composed is the last unit read, or the syllable it completed. */
  lemma {:induction false} FoldLast(out: seq<Unit>, us: seq<Unit>)
    requires us != []
    ensures Fold(out, us) != []
    ensures var last := Fold(out, us)[|Fold(out, us)| - 1]; var u := us[|us| - 1];
            last == u || (u.Cp? && (IsV(u.c) || IsT(u.c)) && last.Cp? && IsS(last.c) && (IsT(u.c) ==> !IsLV(last.c)))
    decreases |us|
  {
    if |us| > 1 {
      FoldLast(Push(out, us[0]), us[1..]);
    }
  }

  lemma TakeOne(done: seq<Unit>, a: Unit, tail: seq<Unit>)
    requires ClosedBefore(done, [a] + tail) && ClosedBefore([a], tail)
    ensures Fold(done, [a] + tail) == Fold(done + [a], tail)
    ensures ClosedBefore(done + [a], tail)
  {
    assert ([a] + tail)[1..] == tail;
  }

  lemma TakeTwo(done: seq<Unit>, a: Unit, b: Unit, tail: seq<Unit>)
    requires ClosedBefore(done, [a] + ([b] + tail)) && Joins(a, b) && ClosedBefore([Join(a, b)], tail)
    ensures Fold(done, [a] + ([b] + tail)) == Fold(done + [Join(a, b)], tail)
    ensures ClosedBefore(done + [Join(a, b)], tail)
  {
    assert ([a] + ([b] + tail))[1..] == [b] + tail;
    assert ([b] + tail)[1..] == tail;
    assert Push(done, a) == done + [a];
    assert Push(done + [a], b) == done + [Join(a, b)];
  }

  lemma TakeThree(done: seq<Unit>, a: Unit, b: Unit, c: Unit, tail: seq<Unit>)
    requires ClosedBefore(done, [a] + ([b] + ([c] + tail))) && Joins(a, b) && Joins(Join(a, b), c)
    ensures Fold(done, [a] + ([b] + ([c] + tail))) == Fold(done + [Join(Join(a, b), c)], tail)
    ensures ClosedBefore(done + [Join(Join(a, b), c)], tail)
  {
    assert ([a] + ([b] + ([c] + tail)))[1..] == [b] + ([c] + tail);
    assert ([b] + ([c] + tail))[1..] == [c] + tail;
    assert Push(done, a) == done + [a];
    assert Push(done + [a], b) == done + [Join(a, b)];
    TakeTwo(done, Join(a, b), c, tail);
  }

  // ---------------------------------------------------------------- composition keeps meaning and is a normal form

  /** Full Hangul decomposition of one unit. */
  function DecomposeUnit(u: Unit): seq<Unit> {
    if u.Cp? && IsS(u.c) then
      var s := u.c - S_BASE;
      [Cp(L_BASE + s / N_CNT), Cp(V_BASE + s % N_CNT / T_CNT)] + (if s % T_CNT == 0 then [] else [Cp(T_BASE + s % T_CNT)])
    else [u]
  }

  function Decompose(us: seq<Unit>): seq<Unit> {
    if us == [] then [] else DecomposeUnit(us[0]) + Decompose(us[1..])
  }

  /** No adjacent pair composes. */
  predicate Normal(us: seq<Unit>) {
    forall i :: 0 < i < |us| ==> !Joins(us[i - 1], us[i])
  }

  lemma DecomposeJoin(a: Unit, b: Unit)
    requires Joins(a, b)
    ensures DecomposeUnit(Join(a, b)) == DecomposeUnit(a) + DecomposeUnit(b)
  {
    if IsL(a.c) {
      QuotientsLV(a.c - L_BASE, b.c - V_BASE);
    } else {
      QuotientsT(a.c - S_BASE, b.c - T_BASE);
    }
  }

  lemma QuotientsLV(l: nat, v: nat)
    requires l < L_CNT && v < V_CNT
    ensures var s := l * N_CNT + v * T_CNT; s < S_CNT && s / N_CNT == l && s % N_CNT / T_CNT == v && s % T_CNT == 0
  {
    var s := l * N_CNT + v * T_CNT;
    assert s / N_CNT == l;
    assert s % N_CNT == v * T_CNT;
  }

  lemma QuotientsT(s: nat, t: nat)
    requires s < S_CNT && s % T_CNT == 0 && 0 < t < T_CNT
    ensures (s + t) / N_CNT == s / N_CNT && (s + t) % N_CNT / T_CNT == s % N_CNT / T_CNT && (s + t) % T_CNT == t
    ensures s + t < S_CNT
  {
  }

  lemma {:induction false} DecomposeAppend(us: seq<Unit>, vs: seq<Unit>)
    ensures Decompose(us + vs) == Decompose(us) + Decompose(vs)
  {
    if us == [] {
      assert us + vs == vs;
    } else {
      assert (us + vs)[1..] == us[1..] + vs;
      DecomposeAppend(us[1..], vs);
    }
  }

  lemma DecomposeSnoc(us: seq<Unit>, u: Unit)
    ensures Decompose(us + [u]) == Decompose(us) + DecomposeUnit(u)
  {
    DecomposeAppend(us, [u]);
    var d := DecomposeUnit(u);
    assert Decompose([u]) == d + Decompose([u][1..]);
    assert d + [] == d;
  }

  lemma DecomposePush(out: seq<Unit>, u: Unit)
    ensures Decompose(Push(out, u)) == Decompose(out) + DecomposeUnit(u)
  {
    if out != [] && Joins(out[|out| - 1], u) {
      var pre, a := out[..|out| - 1], out[|out| - 1];
      assert out == pre + [a];
      DecomposeSnoc(pre, a);
      DecomposeSnoc(pre, Join(a, u));
      DecomposeJoin(a, u);
      Assoc(Decompose(pre), DecomposeUnit(a), DecomposeUnit(u));
    } else {
      DecomposeSnoc(out, u);
    }
  }

  lemma {:induction false} FoldMeaning(out: seq<Unit>, us: seq<Unit>)
    requires Normal(out)
    ensures Decompose(Fold(out, us)) == Decompose(out) + Decompose(us)
    ensures Normal(Fold(out, us))
    decreases |us|
  {
    if us != [] {
      PushNormal(out, us[0]);
      DecomposePush(out, us[0]);
      Assoc(Decompose(out), DecomposeUnit(us[0]), Decompose(us[1..]));
      FoldMeaning(Push(out, us[0]), us[1..]);
    }
  }

  lemma PushNormal(out: seq<Unit>, u: Unit)
    requires Normal(out)
    ensures Normal(Push(out, u))
  {
    var n := |out|;
    if n > 1 && Joins(out[n - 1], u) { NothingBeforeSyllable(out[n - 2], Join(out[n - 1], u)); }
  }

  /** A syllable joins nothing that stands before it. */
  lemma NothingBeforeSyllable(a: Unit, u: Unit)
    requires u.Cp? && IsS(u.c)
    ensures !Joins(a, u)
  {
  }

  lemma {:induction false} FoldNormal(out: seq<Unit>, us: seq<Unit>)
    requires Normal(out + us)
    ensures Fold(out, us) == out + us
    decreases |us|
  {
    if us != [] {
      assert out != [] ==> !Joins((out + us)[|out| - 1], (out + us)[|out|]);
      assert out + us == (out + [us[0]]) + us[1..];
      FoldNormal(out + [us[0]], us[1..]);
    }
  }

  lemma Quotients(s: nat)
    requires s < S_CNT
    ensures s / N_CNT < L_CNT && s % N_CNT / T_CNT < V_CNT
    ensures s == s / N_CNT * N_CNT + s % N_CNT / T_CNT * T_CNT + s % T_CNT
  {
    assert s % N_CNT % T_CNT == s % T_CNT;
  }

  /** The jamo of a syllable join to it again. */
  lemma JamoJoin(c: CodePoint)
    requires IsS(c)
    ensures var s := c - S_BASE;
      var l, v, t := Cp(L_BASE + s / N_CNT), Cp(V_BASE + s % N_CNT / T_CNT), Cp(T_BASE + s % T_CNT);
      && Joins(l, v)
      && (if s % T_CNT == 0 then Join(l, v) == Cp(c) else Joins(Join(l, v), t) && Join(Join(l, v), t) == Cp(c))
  {
    Quotients(c - S_BASE);
  }

  /** A syllable `u` and its jamo: an L, a V and perhaps a T. */
  ghost predicate Jamo(u: Unit, l: Unit, v: Unit, t: Option<Unit>, parts: seq<Unit>) {
    && u.Cp? && IsS(u.c) && l.Cp? && IsL(l.c) && Joins(l, v)
    && match t
       case None => Join(l, v) == u && parts == [l] + ([v] + [])
       case Some(c) => Joins(Join(l, v), c) && Join(Join(l, v), c) == u && parts == [l] + ([v] + ([c] + []))
  }

  lemma DecomposedJamo(u: Unit) returns (l: Unit, v: Unit, t: Option<Unit>)
    requires u.Cp? && IsS(u.c)
    ensures Jamo(u, l, v, t, DecomposeUnit(u))
  {
    JamoJoin(u.c);
    var s := u.c - S_BASE;
    l, v := Cp(L_BASE + s / N_CNT), Cp(V_BASE + s % N_CNT / T_CNT);
    t := if s % T_CNT == 0 then None else Some(Cp(T_BASE + s % T_CNT));
  }

  lemma FoldJamo(out: seq<Unit>, u: Unit, l: Unit, v: Unit, t: Option<Unit>, parts: seq<Unit>)
    requires Jamo(u, l, v, t, parts)
    ensures Fold(out, parts) == Push(out, u)
  {
    PushSyllable(out, u);
    match t
    case None => TakeTwo(out, l, v, []);
    case Some(c) => TakeThree(out, l, v, c, []);
  }

  /** A precomposed syllable and its jamo are written alike. */
  lemma FoldDecomposedUnit(out: seq<Unit>, u: Unit)
    ensures Fold(out, DecomposeUnit(u)) == Push(out, u)
  {
    if u.Cp? && IsS(u.c) {
      var l, v, t := DecomposedJamo(u);
      FoldJamo(out, u, l, v, t, DecomposeUnit(u));
    } else {
      FoldOne(out, u);
    }
  }

  lemma FoldOne(out: seq<Unit>, u: Unit)
    ensures Fold(out, [u]) == Push(out, u)
  {
  }

  lemma PushSyllable(out: seq<Unit>, u: Unit)
    requires u.Cp? && IsS(u.c)
    ensures Push(out, u) == out + [u]
  {
    if out != [] { NothingBeforeSyllable(out[|out| - 1], u); }
  }

  lemma {:induction false} FoldDecomposed(out: seq<Unit>, us: seq<Unit>)
    ensures Fold(out, Decompose(us)) == Fold(out, us)
    decreases |us|
  {
    if us != [] {
      FoldAppend(out, DecomposeUnit(us[0]), Decompose(us[1..]));
      FoldDecomposedUnit(out, us[0]);
      FoldDecomposed(Push(out, us[0]), us[1..]);
    }
  }

  /** Composition decides canonical equivalence: two texts compose alike exactly when they decompose alike. */
  lemma ComposeIsCanonical(us: seq<Unit>, vs: seq<Unit>)
    ensures Decompose(Compose(us)) == Decompose(us)
    ensures Normal(Compose(us))
    ensures Compose(us) == Compose(vs) <==> Decompose(us) == Decompose(vs)
  {
    FoldMeaning([], us);
    FoldMeaning([], vs);
    FoldDecomposed([], us);
    FoldDecomposed([], vs);
  }

  // ---------------------------------------------------------------- the same on bytes

  /** Units a scan can produce: a raw byte is one that starts no character. */
  predicate Scanned(us: seq<Unit>) {
    forall u :: u in us ==> u.Raw? ==> 0x80 <= u.b < 0xC0 || 0xF8 <= u.b
  }

  lemma {:induction false} ScanIsScanned(s: seq<byte>, i: nat)
    requires i <= |s|
    ensures Scanned(ScanFrom(s, i)) && |Encode(ScanFrom(s, i))| <= |s| - i
    decreases |s| - i
  {
    if Starts(s, i) { ScanIsScanned(s, i + HeadLen(s, i)); }
  }

  lemma {:induction false} ScanEncode(us: seq<Unit>)
    requires Scanned(us)
    ensures Scan(Encode(us)) == us && Whole(Encode(us))
  {
    if us != [] {
      assert us[0] in us;
      ScanEncodeUnit(us[0], Encode(us[1..]));
      ScanEncode(us[1..]);
    }
  }

  lemma ScanEncodeUnit(u: Unit, rest: seq<byte>)
    requires Scanned([u])
    ensures Scan(EncodeUnit(u) + rest) == [u] + Scan(rest)
    ensures Whole(EncodeUnit(u) + rest) == Whole(rest)
  {
    var e := EncodeUnit(u);
    assert u in [u];
    if u.Cp? { EncDec(u.c, rest); EncDec(u.c, []); assert e + [] == e; }
    assert ScanFrom(e, |e|) == [] && WholeFrom(e, |e|);
    ScanAppend(e, rest);
  }

  lemma JoinShrinks(a: Unit, b: Unit)
    requires Joins(a, b)
    ensures UnitLen(Join(a, b)) <= UnitLen(a) + UnitLen(b)
  {
  }

  lemma PushShrinks(out: seq<Unit>, u: Unit)
    ensures |Encode(Push(out, u))| <= |Encode(out)| + UnitLen(u)
  {
    assert Encode([u]) == EncodeUnit(u) + [];
    if out != [] && Joins(out[|out| - 1], u) {
      var pre, a := out[..|out| - 1], out[|out| - 1];
      assert out == pre + [a];
      assert Encode([a]) == EncodeUnit(a) + [];
      assert Encode([Join(a, u)]) == EncodeUnit(Join(a, u)) + [];
      JoinShrinks(a, u);
      EncodeAppend(pre, [a]);
      EncodeAppend(pre, [Join(a, u)]);
    } else {
      EncodeAppend(out, [u]);
    }
  }

  lemma {:induction false} FoldShrinks(out: seq<Unit>, us: seq<Unit>)
    requires Scanned(out) && Scanned(us)
    ensures |Encode(Fold(out, us))| <= |Encode(out)| + |Encode(us)|
    ensures Scanned(Fold(out, us))
    decreases |us|
  {
    if us != [] {
      assert us[0] in us;
      PushShrinks(out, us[0]);
      FoldShrinks(Push(out, us[0]), us[1..]);
    }
  }

  /** The composed bytes read back as the composed text and are never longer than the input. */
  lemma ComposeBytesReads(s: seq<byte>)
    ensures Scan(ComposeBytes(s)) == Compose(Scan(s))
    ensures Whole(ComposeBytes(s))
    ensures |ComposeBytes(s)| <= |s|
  {
    ScanIsScanned(s, 0);
    FoldShrinks([], Scan(s));
    ScanEncode(Compose(Scan(s)));
  }

  /**
    On every byte string, malformed and overlong sequences included: composing again
    changes nothing, the composed text means what the input meant and holds no pair
    left to compose, and two inputs have the same wire form exactly when they are
    canonically equivalent.
  */
  lemma ComposeBytesIsCanonical(s: seq<byte>, t: seq<byte>)
    ensures ComposeBytes(ComposeBytes(s)) == ComposeBytes(s)
    ensures Decompose(Scan(ComposeBytes(s))) == Decompose(Scan(s))
    ensures Normal(Scan(ComposeBytes(s)))
    ensures ComposeBytes(s) == ComposeBytes(t) <==> Decompose(Scan(s)) == Decompose(Scan(t))
  {
    ComposeBytesReads(s);
    ComposeBytesReads(t);
    ComposeIsCanonical(Scan(s), Scan(t));
    FoldNormal([], Compose(Scan(s)));
    assert [] + Compose(Scan(s)) == Compose(Scan(s));
  }

  // ---------------------------------------------------------------- UTF-8 itself

  /** Length of a character by its first byte (section 3 of RFC 3629, carried on to 21 bits); 0 for a byte that starts none. */
  function LeadLen(b: byte): nat {
    if b < 0x80 then 1 else if 0xC0 <= b < 0xE0 then 2 else if 0xE0 <= b < 0xF0 then 3 else if 0xF0 <= b < 0xF8 then 4 else 0
  }

  predicate Continues(b: byte) { 0x80 <= b <= 0xBF }

  /** The bytes at `i` are `c` in UTF-8: the right first byte, continuation bytes, and no longer form than `c` needs. */
  predicate CharIs(s: seq<byte>, i: nat, c: CodePoint) {
    && i < |s| && i + LeadLen(s[i]) <= |s|
    && match LeadLen(s[i])
       case 1 => c == s[i]
       case 2 => 0x80 <= c && Continues(s[i + 1]) && c == (s[i] as int - 0xC0) * 64 + (s[i + 1] as int - 0x80)
       case 3 => 0x800 <= c && Continues(s[i + 1]) && Continues(s[i + 2])
                 && c == (s[i] as int - 0xE0) * 4096 + (s[i + 1] as int - 0x80) * 64 + (s[i + 2] as int - 0x80)
       case 4 => 0x1_0000 <= c && Continues(s[i + 1]) && Continues(s[i + 2]) && Continues(s[i + 3])
                 && c == (s[i] as int - 0xF0) * 262144 + (s[i + 1] as int - 0x80) * 4096 + (s[i + 2] as int - 0x80) * 64 + (s[i + 3] as int - 0x80)
       case _ => false
  }

  /** From `i` on the byte string is the UTF-8 text of these code points. */
  predicate Spells(s: seq<byte>, i: nat, cs: seq<CodePoint>)
    decreases |cs|
  {
    if cs == [] then i == |s| else CharIs(s, i, cs[0]) && Spells(s, i + LeadLen(s[i]), cs[1..])
  }

  function Cps(cs: seq<CodePoint>): seq<Unit> { seq(|cs|, i requires 0 <= i < |cs| => Cp(cs[i])) }

  predicate AllCp(us: seq<Unit>) { forall u :: u in us ==> u.Cp? }

  function Codes(us: seq<Unit>): seq<CodePoint>
    requires AllCp(us)
  {
    seq<CodePoint>(|us|, i requires 0 <= i < |us| => assert us[i] in us; us[i].c)
  }

  lemma CharTwo(x: int, y: int)
    requires 0 <= x < 32 && 0 <= y < 64
    ensures (x * 64 + y) / 64 == x && (x * 64 + y) % 64 == y
  {
  }

  lemma CharThree(x: int, y: int, z: int)
    requires 0 <= x < 16 && 0 <= y < 64 && 0 <= z < 64
    ensures var c := x * 4096 + y * 64 + z; c / 4096 == x && c / 64 % 64 == y && c % 64 == z
  {
    var c := x * 4096 + y * 64 + z;
    assert c / 64 == x * 64 + y;
  }

  lemma CharFour(w: int, x: int, y: int, z: int)
    requires 0 <= w < 8 && 0 <= x < 64 && 0 <= y < 64 && 0 <= z < 64
    ensures var c := w * 262144 + x * 4096 + y * 64 + z; c / 262144 == w && c / 4096 % 64 == x && c / 64 % 64 == y && c % 64 == z
  {
    var c := w * 262144 + x * 4096 + y * 64 + z;
    assert c / 64 == w * 4096 + x * 64 + y;
    assert c / 4096 == w * 64 + x;
  }

  /** What is written for a code point is that code point in UTF-8, and nothing else is. */
  lemma EncIsUtf8(s: seq<byte>, i: nat, c: CodePoint)
    ensures CharIs(s, i, c) <==> Lies(s, i, U8Enc(c))
    ensures CharIs(s, i, c) ==> LeadLen(s[i]) == |U8Enc(c)|
  {
    if CharIs(s, i, c) { EncWritesChar(s, i, c); }
    if Lies(s, i, U8Enc(c)) { EncReadsChar(s, i, c); }
  }

  lemma EncWritesChar(s: seq<byte>, i: nat, c: CodePoint)
    requires CharIs(s, i, c)
    ensures Lies(s, i, U8Enc(c)) && LeadLen(s[i]) == |U8Enc(c)|
  {
    match LeadLen(s[i])
    case 1 =>
    case 2 => CharTwo(s[i] as int - 0xC0, s[i + 1] as int - 0x80);
    case 3 => EncWritesThree(s, i, c);
    case 4 => EncWritesFour(s, i, c);
  }

  lemma EncWritesThree(s: seq<byte>, i: nat, c: CodePoint)
    requires CharIs(s, i, c) && LeadLen(s[i]) == 3
    ensures |U8Enc(c)| == 3 && s[i..i + 3] == U8Enc(c)
  {
    CharThree(s[i] as int - 0xE0, s[i + 1] as int - 0x80, s[i + 2] as int - 0x80);
  }

  lemma EncWritesFour(s: seq<byte>, i: nat, c: CodePoint)
    requires CharIs(s, i, c) && LeadLen(s[i]) == 4
    ensures |U8Enc(c)| == 4 && s[i..i + 4] == U8Enc(c)
  {
    CharFour(s[i] as int - 0xF0, s[i + 1] as int - 0x80, s[i + 2] as int - 0x80, s[i + 3] as int - 0x80);
  }

  lemma EncReadsChar(s: seq<byte>, i: nat, c: CodePoint)
    requires Lies(s, i, U8Enc(c))
    ensures CharIs(s, i, c)
  {
    var e := U8Enc(c);
    assert forall n :: 0 <= n < |e| ==> s[i + n] == s[i..i + |e|][n] == e[n];
    Shifts(c);
    assert s[i] == e[0];
    if |e| > 1 { assert s[i + 1] == e[1]; }
    if |e| > 2 { assert s[i + 2] == e[2]; }
    if |e| > 3 { assert s[i + 3] == e[3]; }
  }

  lemma SpellsIsEncode(s: seq<byte>, i: nat, cs: seq<CodePoint>)
    requires i <= |s|
    ensures Spells(s, i, cs) <==> s[i..] == Encode(Cps(cs))
    decreases |cs|
  {
    if cs != [] {
      var e, us := U8Enc(cs[0]), Cps(cs);
      EncIsUtf8(s, i, cs[0]);
      assert us[1..] == Cps(cs[1..]);
      if Lies(s, i, e) {
        SpellsIsEncode(s, i + |e|, cs[1..]);
        assert s[i..] == e + s[i + |e|..];
      }
      if s[i..] == Encode(us) {
        assert s[i..][..|e|] == s[i..i + |e|];
        assert Encode(us)[|e|..] == Encode(us[1..]) && s[i..][|e|..] == s[i + |e|..];
      }
    }
  }

  lemma CpsScanned(cs: seq<CodePoint>)
    ensures Scanned(Cps(cs)) && AllCp(Cps(cs)) && Codes(Cps(cs)) == cs
  {
  }

  lemma CodesBack(us: seq<Unit>)
    requires AllCp(us)
    ensures Cps(Codes(us)) == us
  {
    forall i | 0 <= i < |us| ensures Cps(Codes(us))[i] == us[i] { assert us[i] in us; }
  }

  /** A character that may stand in UTF-8 text: no surrogate, and within the code space. */
  predicate Scalar(c: CodePoint) { c < 0xD800 || 0xE000 <= c < 0x11_0000 }

  predicate AllScalar(us: seq<Unit>) { forall u :: u in us ==> u.Cp? && Scalar(u.c) }

  lemma {:induction false} FoldKeepsCp(out: seq<Unit>, us: seq<Unit>)
    requires AllCp(out) && AllCp(us)
    ensures AllCp(Fold(out, us)) && (AllScalar(out) && AllScalar(us) ==> AllScalar(Fold(out, us)))
    decreases |us|
  {
    if us != [] {
      assert us[0] in us;
      FoldKeepsCp(Push(out, us[0]), us[1..]);
    }
  }

  /** The text of these code points, composed. */
  function Composed(cs: seq<CodePoint>): seq<CodePoint> {
    CpsScanned(cs);
    FoldKeepsCp([], Cps(cs));
    Codes(Compose(Cps(cs)))
  }

  /**
    UTF-8 in, UTF-8 out: the composed bytes of a well-formed text are the UTF-8 text of its
    composed code points, in the shortest form and with nothing but scalar values if it
    has no others.
  */
  lemma Utf8Composes(s: seq<byte>, cs: seq<CodePoint>)
    requires Spells(s, 0, cs)
    ensures Spells(ComposeBytes(s), 0, Composed(cs))
    ensures (forall c :: c in cs ==> Scalar(c)) ==> forall c :: c in Composed(cs) ==> Scalar(c)
  {
    var us := Cps(cs);
    CpsScanned(cs);
    FoldKeepsCp([], us);
    SpellsIsEncode(s, 0, cs);
    assert s[0..] == s;
    ScanEncode(us);
    CodesBack(Compose(us));
    var t := ComposeBytes(s);
    assert t[0..] == t;
    SpellsIsEncode(t, 0, Composed(cs));
    if forall c :: c in cs ==> Scalar(c) {
      forall u | u in us ensures u.Cp? && Scalar(u.c) { var i :| 0 <= i < |us| && us[i] == u; assert cs[i] in cs; }
      forall c | c in Composed(cs) ensures Scalar(c) {
        var i :| 0 <= i < |Composed(cs)| && Composed(cs)[i] == c;
        assert Compose(us)[i] in Compose(us);
      }
    }
  }

  /** Two code points that make one: a leading consonant and a vowel, or a syllable without a final and a final. */
  predicate Pair(a: CodePoint, b: CodePoint) {
    || (0x1100 <= a <= 0x1112 && 0x1161 <= b <= 0x1175)
    || (0xAC00 <= a <= 0xD7A3 && (a - 0xAC00) % 28 == 0 && 0x11A8 <= b <= 0x11C2)
  }

  lemma PairJoins(a: CodePoint, b: CodePoint)
    ensures Pair(a, b) <==> Joins(Cp(a), Cp(b))
  {
  }

  /** No two neighbours make one. */
  predicate NoPair(cs: seq<CodePoint>) { forall i :: 0 < i < |cs| ==> !Pair(cs[i - 1], cs[i]) }

  lemma NoPairIsNormal(cs: seq<CodePoint>)
    ensures NoPair(cs) <==> Normal(Cps(cs))
  {
    var us := Cps(cs);
    forall i | 0 < i < |cs| ensures Pair(cs[i - 1], cs[i]) <==> Joins(us[i - 1], us[i]) { PairJoins(cs[i - 1], cs[i]); }
  }

  lemma NormalKept(us: seq<Unit>)
    ensures Normal(us) ==> Compose(us) == us
  {
    assert [] + us == us;
    if Normal(us) { FoldNormal([], us); }
  }

  /** A well-formed text comes out byte for byte as it was exactly when no two neighbours in it make one. */
  lemma Utf8Kept(s: seq<byte>, cs: seq<CodePoint>)
    requires Spells(s, 0, cs)
    ensures ComposeBytes(s) == s <==> NoPair(cs)
  {
    var us := Cps(cs);
    CpsScanned(cs);
    SpellsIsEncode(s, 0, cs);
    assert s[0..] == s;
    ScanEncode(us);
    NoPairIsNormal(cs);
    NormalKept(us);
    if ComposeBytes(s) == s { ComposeBytesIsCanonical(s, s); }
  }

  /** The bytes of U+1100 to U+1112, U+1161 to U+1175, U+11A8 to U+11C2, and of the syllable block. */
  function LBytes(l: nat): seq<byte>
    requires l < 19
  {
    [0xE1, 0x84, 0x80 + l]
  }

  function VBytes(v: nat): seq<byte>
    requires v < 21
  {
    [0xE1, 0x85, 0xA1 + v]
  }

  function TBytes(t: nat): seq<byte>
    requires 0 < t < 28
  {
    if t < 25 then [0xE1, 0x86, 0xA7 + t] else [0xE1, 0x87, 0x80 + (t - 25)]
  }

  function SBytes(n: nat): seq<byte>
    requires n < 11172
  {
    [0xE0 + (44032 + n) / 4096, 0x80 + (44032 + n) / 64 % 64, 0x80 + (44032 + n) % 64]
  }

  lemma JamoBytes(l: nat, v: nat, t: nat, n: nat)
    requires l < 19 && v < 21 && 0 < t < 28 && n < 11172
    ensures LBytes(l) == U8Enc(0x1100 + l) && VBytes(v) == U8Enc(0x1161 + v) && TBytes(t) == U8Enc(0x11A7 + t)
    ensures SBytes(n) == U8Enc(0xAC00 + n)
  {
  }

  lemma EncodeOne(a: CodePoint)
    ensures Encode([Cp(a)]) == U8Enc(a)
  {
    EncodeCons(Cp(a), []);
    assert [Cp(a)] + [] == [Cp(a)] && U8Enc(a) + [] == U8Enc(a);
  }

  lemma EncodeCons(u: Unit, us: seq<Unit>)
    ensures Encode([u] + us) == EncodeUnit(u) + Encode(us)
  {
    assert ([u] + us)[1..] == us;
  }

  lemma EncodeTwo(a: CodePoint, b: CodePoint)
    ensures Encode([Cp(a), Cp(b)]) == U8Enc(a) + U8Enc(b)
  {
    EncodeCons(Cp(a), [Cp(b)]);
    EncodeOne(b);
    assert [Cp(a)] + [Cp(b)] == [Cp(a), Cp(b)];
  }

  lemma EncodeThree(a: CodePoint, b: CodePoint, c: CodePoint)
    ensures Encode([Cp(a), Cp(b), Cp(c)]) == U8Enc(a) + U8Enc(b) + U8Enc(c)
  {
    EncodeCons(Cp(a), [Cp(b), Cp(c)]);
    EncodeTwo(b, c);
    assert [Cp(a)] + [Cp(b), Cp(c)] == [Cp(a), Cp(b), Cp(c)];
    Assoc(U8Enc(a), U8Enc(b), U8Enc(c));
  }

  /** Composition of units that encode to these bytes. */
  lemma UnitsCompose(us: seq<Unit>, u: Unit)
    requires AllCp(us) && u.Cp? && Compose(us) == [u]
    ensures ComposeBytes(Encode(us)) == EncodeUnit(u)
  {
    ScanEncode(us);
    EncodeOne(u.c);
  }

  /**
    Every modern syllable, byte for byte: its consonant, vowel and final, and its open
    form with the final, come out as the three bytes of the syllable numbered
    588 l + 28 v + t from U+AC00; and its consonant and vowel as those of the open form.
  */
  lemma SyllableBytes(l: nat, v: nat, t: nat)
    requires l < 19 && v < 21 && 0 < t < 28
    ensures 588 * l + 28 * v + t < 11172
    ensures ComposeBytes(LBytes(l) + VBytes(v)) == SBytes(588 * l + 28 * v)
    ensures ComposeBytes(SBytes(588 * l + 28 * v) + TBytes(t)) == SBytes(588 * l + 28 * v + t)
    ensures ComposeBytes(LBytes(l) + VBytes(v) + TBytes(t)) == SBytes(588 * l + 28 * v + t)
  {
    var n := 588 * l + 28 * v;
    QuotientsLV(l, v);
    var a, b, c, lv, lvt := Cp(0x1100 + l), Cp(0x1161 + v), Cp(0x11A7 + t), Cp(0xAC00 + n), Cp(0xAC00 + n + t);
    JamoBytes(l, v, t, n);
    JamoBytes(l, v, t, n + t);
    ThreeCompose(a, b, c, lv, lvt);
    UnitsCompose([a, b], lv);
    UnitsCompose([lv, c], lvt);
    UnitsCompose([a, b, c], lvt);
    EncodeTwo(a.c, b.c);
    EncodeTwo(lv.c, c.c);
    EncodeThree(a.c, b.c, c.c);
  }

  lemma ThreeCompose(a: Unit, b: Unit, c: Unit, ab: Unit, abc: Unit)
    requires Joins(a, b) && Join(a, b) == ab && Joins(ab, c) && Join(ab, c) == abc
    ensures Compose([a, b]) == [ab] && Compose([ab, c]) == [abc] && Compose([a, b, c]) == [abc]
  {
    TakeTwo([], a, b, []);
    TakeTwo([], ab, c, []);
    TakeThree([], a, b, c, []);
    assert [a] + ([b] + []) == [a, b] && [ab] + ([c] + []) == [ab, c] && [a] + ([b] + ([c] + [])) == [a, b, c];
    assert [] + [ab] == [ab] && [] + [abc] == [abc];
  }

  /** Of the second and later bytes of a character only the low six bits count, whatever the others are. */
  lemma TailBitsIgnored(s: seq<byte>, i: nat, j: nat, b: byte)
    requires Starts(s, i) && i < j < i + HeadLen(s, i) && b % 64 == s[j] % 64
    ensures U8Dec(s[j := b], i) == U8Dec(s, i)
  {
  }

  // ---------------------------------------------------------------- where a stream may be cut

  /** Whatever follows, cutting `s` at `cut` and composing the two sides apart changes nothing. */
  ghost predicate Splits(s: seq<byte>, cut: nat, t: seq<byte>)
    requires cut <= |s|
  {
    ComposeBytes(s + t) == ComposeBytes(s[..cut]) + ComposeBytes(s[cut..] + t)
  }

  lemma ClosedCutSplits(s: seq<byte>, cut: nat, t: seq<byte>)
    requires cut <= |s| && Whole(s[..cut])
    requires ClosedBefore(Compose(Scan(s[..cut])), Scan(s[cut..] + t))
    ensures Splits(s, cut, t)
  {
    var a, b := s[..cut], s[cut..] + t;
    assert s + t == a + b;
    ScanAppend(a, b);
    FoldAppend([], Scan(a), Scan(b));
    FoldClosed(Compose(Scan(a)), Scan(b));
    EncodeAppend(Compose(Scan(a)), Compose(Scan(b)));
  }

  /** The unit `u` lies between two character boundaries of `s`. */
  ghost predicate UnitBetween(s: seq<byte>, start: nat, end: nat, u: Unit) {
    && Starts(s, start)
    && end == start + HeadLen(s, start)
    && u == HeadUnit(s, start)
    && Whole(s[..start])
  }

  lemma UnitEnds(s: seq<byte>, start: nat, end: nat, u: Unit)
    requires UnitBetween(s, start, end, u)
    ensures Whole(s[..end])
    ensures Scan(s[..end]) == Scan(s[..start]) + [u]
  {
    var w := s[start..end];
    assert w[0..end - start] == w;
    DecLocal(s, start, w, 0);
    assert WholeFrom(w, end - start) && ScanFrom(w, end - start) == [];
    assert w[0] == s[start];
    assert s[..end] == s[..start] + w;
    ScanAppend(s[..start], w);
  }

  /** A cut just before a unit that never joins what precedes it, or after text it cannot join. */
  lemma CutBeforeUnit(s: seq<byte>, start: nat, end: nat, u: Unit, t: seq<byte>)
    requires UnitBetween(s, start, end, u)
    requires ClosedBefore(Compose(Scan(s[..start])), [u])
    ensures Splits(s, start, t)
  {
    var r := s[start..] + t;
    assert s[start..end] == r[0..end - start];
    DecLocal(s, start, r, 0);
    assert r[0] == s[start];
    assert Scan(r)[0] == u;
    ClosedCutSplits(s, start, t);
  }

  lemma CutAfterUnit(s: seq<byte>, start: nat, end: nat, u: Unit, t: seq<byte>)
    requires UnitBetween(s, start, end, u)
    requires u.Cp? ==> !IsL(u.c) && !IsV(u.c) && !IsLV(u.c)
    ensures Splits(s, end, t)
  {
    UnitEnds(s, start, end, u);
    FoldLast([], Scan(s[..end]));
    ClosedCutSplits(s, end, t);
  }

  /** Code point of the unit, -1 for a raw byte: what the scanning loop remembers. */
  function UnitCode(u: Unit): int {
    match u case Cp(c) => c case Raw(_) => -1
  }

  /**
    How much of `src` can be converted now. The loop remembers the starts and values of
    the last two characters; a trailing L, L+V or LV is left for the next call.
  */
  method SafeEnd(src: seq<byte>) returns (lim: nat)
    ensures lim <= |src| <= lim + 11
    ensures forall t :: Splits(src, lim, t)
  {
    var st0, st1, cv0, cv1 := -1, -1, 0, 0;
    var p := 0;
    ghost var u0, u1 := Raw(0), Raw(0);
    while p < |src|
      invariant 0 <= p <= |src|
      invariant -1 <= st0 <= st1
      invariant st1 < 0 ==> p == 0
      invariant st1 >= 0 ==> UnitBetween(src, st1, p, u1) && cv1 == UnitCode(u1)
      invariant st1 >= 0 && st0 < 0 ==> st1 == 0
      invariant st1 >= 0 && st0 >= 0 ==> UnitBetween(src, st0, st1, u0) && cv0 == UnitCode(u0)
    {
      var c: int, k := -1, 1;
      var d := U8Dec(src, p);
      if d.Incomplete? { break; }
      if d.Char? { c, k := d.cp, d.used; }
      if st1 >= 0 { UnitEnds(src, st1, p, u1); }
      u0, u1 := u1, HeadUnit(src, p);
      st0, cv0 := st1, cv1;
      st1, cv1 := p, c;
      p := p + k;
    }
    if st1 < 0 {
      forall t { ClosedCutSplits(src, p, t); }
      return p;
    }
    if IsL(cv1) {
      forall t { CutBeforeUnit(src, st1, p, u1, t); }
      return st1;
    }
    if IsV(cv1) {
      if st0 >= 0 && IsL(cv0) {
        forall t { CutBeforeUnit(src, st0, st1, u0, t); }
        return st0;
      }
      if st0 >= 0 {
        UnitEnds(src, st0, st1, u0);
        FoldLast([], Scan(src[..st1]));
      }
      forall t { CutBeforeUnit(src, st1, p, u1, t); }
      return st1;
    }
    if IsS(cv1) && (cv1 - S_BASE) % T_CNT == 0 {
      forall t { CutBeforeUnit(src, st1, p, u1, t); }
      return st1;
    }
    forall t { CutAfterUnit(src, st1, p, u1, t); }
    return p;
  }

  // ---------------------------------------------------------------- composing a buffer

  method Write(out: array<byte>, o: nat, e: seq<byte>)
    requires o + |e| <= out.Length
    modifies out
    ensures out[..o + |e|] == old(out[..o]) + e
  {
    for j := 0 to |e|
      invariant out[..o + j] == old(out[..o]) + e[..j]
    {
      out[o + j] := e[j];
    }
  }

  /** The character at `i`, if a whole one starts there. */
  function Peek(s: seq<byte>, i: nat): (d: Dec)
    ensures d.Char? ==> i + d.used <= |s|
  {
    if i < |s| then U8Dec(s, i) else Incomplete
  }

  /** The units written so far, `done`, stand for the bytes of `s` before `i`. */
  ghost predicate Through(s: seq<byte>, i: nat, done: seq<Unit>) {
    && i <= |s|
    && Compose(Scan(s)) == Fold(done, ScanFrom(s, i))
    && ClosedBefore(done, ScanFrom(s, i))
  }

  lemma RawThrough(s: seq<byte>, i: nat, done: seq<Unit>)
    requires Through(s, i, done) && i < |s| && U8Dec(s, i).Invalid?
    ensures Through(s, i + 1, done + [Raw(s[i])])
  {
    TakeOne(done, Raw(s[i]), ScanFrom(s, i + 1));
  }

  lemma ClosedAt(s: seq<byte>, i: nat, u: Unit)
    requires i <= |s|
    requires var e := Peek(s, i); e.Char? ==> !Joins(u, Cp(e.cp))
    ensures ClosedBefore([u], ScanFrom(s, i))
  {
  }

  lemma OneThrough(s: seq<byte>, i: nat, done: seq<Unit>, d: Dec, e: Dec, u: Unit, adv: nat)
    requires Through(s, i, done) && d == Peek(s, i) && d.Char? && e == Peek(s, i + d.used)
    requires !e.Char? || !Joins(Cp(d.cp), Cp(e.cp))
    requires u == Cp(d.cp) && adv == d.used
    ensures Through(s, i + adv, done + [u])
  {
    ClosedAt(s, i + d.used, Cp(d.cp));
    ScanChar(s, i, d);
    OneMore(s, i, i + adv, done, u);
  }

  lemma OneMore(s: seq<byte>, i: nat, j: nat, done: seq<Unit>, u: Unit)
    requires Through(s, i, done) && j <= |s| && ScanFrom(s, i) == [u] + ScanFrom(s, j) && ClosedBefore([u], ScanFrom(s, j))
    ensures Through(s, j, done + [u])
  {
    TakeOne(done, u, ScanFrom(s, j));
  }

  lemma TwoThrough(s: seq<byte>, i: nat, done: seq<Unit>, d: Dec, e: Dec, f: Dec, u: Unit, adv: nat)
    requires Through(s, i, done) && d == Peek(s, i) && d.Char? && e == Peek(s, i + d.used) && e.Char?
    requires f == Peek(s, i + d.used + e.used) && Joins(Cp(d.cp), Cp(e.cp))
    requires !f.Char? || !Joins(Join(Cp(d.cp), Cp(e.cp)), Cp(f.cp))
    requires u == Join(Cp(d.cp), Cp(e.cp)) && adv == d.used + e.used
    ensures Through(s, i + adv, done + [u])
  {
    ScanTwo(s, i, d, e);
    ClosedAt(s, i + d.used + e.used, Join(Cp(d.cp), Cp(e.cp)));
    TwoMore(s, i, i + adv, done, Cp(d.cp), Cp(e.cp), u);
  }

  lemma ScanTwo(s: seq<byte>, i: nat, d: Dec, e: Dec)
    requires d == Peek(s, i) && d.Char? && e == Peek(s, i + d.used) && e.Char?
    ensures ScanFrom(s, i) == [Cp(d.cp)] + ([Cp(e.cp)] + ScanFrom(s, i + d.used + e.used))
  {
    ScanChar(s, i, d);
    ScanChar(s, i + d.used, e);
  }

  lemma ScanChar(s: seq<byte>, i: nat, d: Dec)
    requires d == Peek(s, i) && d.Char?
    ensures i + d.used <= |s| && ScanFrom(s, i) == [Cp(d.cp)] + ScanFrom(s, i + d.used)
  {
    ScanOne(s, i);
  }

  lemma ScanThree(s: seq<byte>, i: nat, d: Dec, e: Dec, f: Dec)
    requires d == Peek(s, i) && d.Char? && e == Peek(s, i + d.used) && e.Char?
    requires f == Peek(s, i + d.used + e.used) && f.Char?
    ensures ScanFrom(s, i) == [Cp(d.cp)] + ([Cp(e.cp)] + ([Cp(f.cp)] + ScanFrom(s, i + d.used + e.used + f.used)))
  {
    ScanChar(s, i, d);
    ScanTwo(s, i + d.used, e, f);
  }

  lemma TwoMore(s: seq<byte>, i: nat, j: nat, done: seq<Unit>, a: Unit, b: Unit, u: Unit)
    requires Through(s, i, done) && j <= |s| && ScanFrom(s, i) == [a] + ([b] + ScanFrom(s, j))
    requires Joins(a, b) && u == Join(a, b) && ClosedBefore([u], ScanFrom(s, j))
    ensures Through(s, j, done + [u])
  {
    TakeTwo(done, a, b, ScanFrom(s, j));
  }

  lemma ThreeThrough(s: seq<byte>, i: nat, done: seq<Unit>, d: Dec, e: Dec, f: Dec, u: Unit, adv: nat)
    requires Through(s, i, done) && d == Peek(s, i) && d.Char? && e == Peek(s, i + d.used) && e.Char?
    requires f == Peek(s, i + d.used + e.used) && f.Char?
    requires Joins(Cp(d.cp), Cp(e.cp)) && Joins(Join(Cp(d.cp), Cp(e.cp)), Cp(f.cp))
    requires u == Join(Join(Cp(d.cp), Cp(e.cp)), Cp(f.cp)) && adv == d.used + e.used + f.used
    ensures Through(s, i + adv, done + [u])
  {
    ScanThree(s, i, d, e, f);
    ThreeMore(s, i, i + adv, done, Cp(d.cp), Cp(e.cp), Cp(f.cp), u);
  }

  lemma ThreeMore(s: seq<byte>, i: nat, j: nat, done: seq<Unit>, a: Unit, b: Unit, c: Unit, u: Unit)
    requires Through(s, i, done) && j <= |s| && ScanFrom(s, i) == [a] + ([b] + ([c] + ScanFrom(s, j)))
    requires Joins(a, b) && Joins(Join(a, b), c) && u == Join(Join(a, b), c)
    ensures Through(s, j, done + [u])
  {
    TakeThree(done, a, b, c, ScanFrom(s, j));
  }

  /** An L and a V make an LV syllable, which a T joins and nothing else does. */
  lemma SyllableLV(l: CodePoint, v: CodePoint)
    requires IsL(l) && IsV(v)
    ensures Joins(Cp(l), Cp(v))
    ensures var sy := S_BASE + (l - L_BASE) * N_CNT + (v - V_BASE) * T_CNT;
      Join(Cp(l), Cp(v)) == Cp(sy) && IsLV(sy) && !IsL(sy)
  {
  }

  /** A T closes an LV syllable: nothing joins the result. */
  lemma SyllableLVT(lv: CodePoint, t: CodePoint)
    requires IsLV(lv) && IsT(t)
    ensures Joins(Cp(lv), Cp(t)) && Join(Cp(lv), Cp(t)) == Cp(lv + (t - T_BASE))
    ensures !IsL(lv + (t - T_BASE)) && !IsLV(lv + (t - T_BASE))
  {
  }

  /** The unit for the character `d` at `i`, joined with the next character and the one after it as far as they join, and the bytes it stands for. */
  predicate Cluster(s: seq<byte>, i: nat, d: Dec, u: Unit, adv: nat)
    requires d.Char?
  {
    var e := Peek(s, i + d.used);
    if !e.Char? || !Joins(Cp(d.cp), Cp(e.cp)) then u == Cp(d.cp) && adv == d.used
    else
      var two, f := Join(Cp(d.cp), Cp(e.cp)), Peek(s, i + d.used + e.used);
      if !f.Char? || !Joins(two, Cp(f.cp)) then u == two && adv == d.used + e.used
      else u == Join(two, Cp(f.cp)) && adv == d.used + e.used + f.used
  }

  lemma ClusterThrough(s: seq<byte>, i: nat, done: seq<Unit>, d: Dec, u: Unit, adv: nat)
    requires Through(s, i, done) && d == Peek(s, i) && d.Char? && Cluster(s, i, d, u, adv)
    ensures Through(s, i + adv, done + [u])
  {
    var e := Peek(s, i + d.used);
    if !e.Char? || !Joins(Cp(d.cp), Cp(e.cp)) {
      OneThrough(s, i, done, d, e, u, adv);
    } else {
      var f := Peek(s, i + d.used + e.used);
      if !f.Char? || !Joins(Join(Cp(d.cp), Cp(e.cp)), Cp(f.cp)) {
        TwoThrough(s, i, done, d, e, f, u, adv);
      } else {
        ThreeThrough(s, i, done, d, e, f, u, adv);
      }
    }
  }

  lemma SyllableWidth(l: CodePoint, v: CodePoint)
    requires IsL(l) && IsV(v)
    ensures var sy := S_BASE + (l - L_BASE) * N_CNT + (v - V_BASE) * T_CNT;
      0x800 <= sy < 0x10000 && forall t :: IsT(t) ==> 0x800 <= sy + (t - T_BASE) < 0x10000
  {
  }

  /** The syllable that starts with the L `d` and the V `e`, with the T after them if there is one. */
  method TakeSyllable(src: seq<byte>, i: nat, d: Dec, e: Dec) returns (u: Unit, adv: nat)
    requires d == Peek(src, i) && d.Char? && e == Peek(src, i + d.used) && e.Char?
    requires IsL(d.cp) && IsV(e.cp)
    ensures Cluster(src, i, d, u, adv)
    ensures UnitLen(u) == 3 && d.used + e.used <= adv
  {
    SyllableWidth(d.cp, e.cp);
    SyllableLV(d.cp, e.cp);
    var sy := S_BASE + (d.cp - L_BASE) * N_CNT + (e.cp - V_BASE) * T_CNT;
    adv := d.used + e.used;
    if i + adv < |src| {
      var f := Peek(src, i + adv);
      if f.Char? && IsT(f.cp) {
        SyllableLVT(sy, f.cp);
        return Cp(sy + (f.cp - T_BASE)), adv + f.used;
      }
    }
    return Cp(sy), adv;
  }

  /** A V and T after an L, or a T after an LV, are taken with it. */
  method NextCluster(src: seq<byte>, i: nat, d: Dec) returns (u: Unit, adv: nat)
    requires d == Peek(src, i) && d.Char?
    ensures Cluster(src, i, d, u, adv)
    ensures UnitLen(u) <= (if adv == d.used then adv else 3) <= adv
  {
    if i + d.used < |src| {
      var e := Peek(src, i + d.used);
      JoinWidths(src, i);
      if IsL(d.cp) && e.Char? && IsV(e.cp) {
        u, adv := TakeSyllable(src, i, d, e);
        return;
      }
      if IsLV(d.cp) && e.Char? && IsT(e.cp) {
        SyllableLVT(d.cp, e.cp);
        return Cp(d.cp + (e.cp - T_BASE)), d.used + e.used;
      }
    }
    CharWidth(src, i);
    return Cp(d.cp), d.used;
  }

  /**
    The next unit to write when the character `d` starts at `i`: it takes a following V
    and T, or T alone after LV, and `adv` bytes are consumed.
  */
  method TakeCluster(src: seq<byte>, i: nat, d: Dec, ghost done: seq<Unit>) returns (u: Unit, adv: nat)
    requires d == Peek(src, i) && d.Char? && Through(src, i, done)
    ensures Through(src, i + adv, done + [u])
    ensures UnitLen(u) <= (if adv == d.used then adv else 3) <= adv
  {
    u, adv := NextCluster(src, i, d);
    ClusterThrough(src, i, done, d, u, adv);
  }

  lemma JoinWidths(s: seq<byte>, i: nat)
    ensures var d := Peek(s, i);
      d.Char? ==>
        && (IsL(d.cp) || IsLV(d.cp) ==> d.used >= 3)
        && (Peek(s, i + d.used).Char? ==> Peek(s, i + d.used).used >= 1)
  {
    CharWidth(s, i);
    if Peek(s, i).Char? { CharWidth(s, i + Peek(s, i).used); }
  }

  /** A character is at least as wide in the input as when it is written. */
  lemma CharWidth(s: seq<byte>, i: nat)
    ensures var d := Peek(s, i); d.Char? ==> 1 <= UnitLen(Cp(d.cp)) <= d.used
  {
  }

  lemma EncodeSnoc(us: seq<Unit>, u: Unit)
    ensures Encode(us + [u]) == Encode(us) + EncodeUnit(u)
  {
    EncodeAppend(us, [u]);
    assert Encode([u]) == EncodeUnit(u) + [];
  }

  /** What to write next, how many bytes it was read from, and the room asked for; None at a truncated end. */
  method NextUnit(src: seq<byte>, i: nat, ghost done: seq<Unit>) returns (next: Option<(Unit, nat, nat)>)
    requires i < |src| && Through(src, i, done)
    ensures next.None? ==> Compose(Scan(src)) == done
    ensures next.Some? ==> Through(src, i + next.value.1, done + [next.value.0])
    ensures next.Some? ==> 1 <= UnitLen(next.value.0) <= next.value.2 <= next.value.1
  {
    var d := U8Dec(src, i);
    if d.Incomplete? { return None; }
    if d.Invalid? {
      RawThrough(src, i, done);
      return Some((Raw(src[i]), 1, 1));
    }
    var u, adv := TakeCluster(src, i, d, done);
    return Some((u, adv, if adv == d.used then adv else 3));
  }

  method Emit(out: array<byte>, o: nat, ghost done: seq<Unit>, u: Unit)
    requires o + UnitLen(u) <= out.Length && out[..o] == Encode(done)
    modifies out
    ensures out[..o + UnitLen(u)] == Encode(done + [u])
  {
    EncodeSnoc(done, u);
    Write(out, o, EncodeUnit(u));
  }

  /**
    Compose `src` into `out`, looking up to two characters ahead. A result of -1 means the
    room `omax` was too small, which cannot happen when it is at least the input length.
  */
  method ComposeBuffer(src: seq<byte>, out: array<byte>, omax: nat) returns (r: int)
    requires omax <= out.Length
    modifies out
    ensures -1 <= r <= omax
    ensures r >= 0 ==> out[..r] == ComposeBytes(src)
    ensures r < 0 ==> omax < |src|
  {
    var i, o := 0, 0;
    ghost var done: seq<Unit> := [];
    ThroughStart(src);
    while i < |src|
      invariant 0 <= o <= i <= |src| && o <= omax
      invariant out[..o] == Encode(done)
      invariant Through(src, i, done)
      decreases |src| - i
    {
      var next := NextUnit(src, i, done);
      if next.None? { return o; }
      var (u, adv, room) := next.value;
      assert 1 <= UnitLen(u) <= room <= adv;
      if o + room > omax { return -1; }
      Emit(out, o, done, u);
      done := done + [u];
      o, i := o + UnitLen(u), i + adv;
    }
    ThroughEnd(src, done);
    return o;
  }

  lemma ThroughStart(s: seq<byte>)
    ensures Through(s, 0, [])
  {
  }

  lemma ThroughEnd(s: seq<byte>, done: seq<Unit>)
    requires Through(s, |s|, done)
    ensures ComposeBytes(s) == Encode(done)
  {
  }

  // ---------------------------------------------------------------- the stream

  /** The bytes written so far, followed by the composed form of what is held and whatever
      is still to come, are the composed form of the whole stream. */
  ghost predicate Exact(fed: seq<byte>, emitted: seq<byte>, held: seq<byte>) {
    forall t {:trigger ComposeBytes(fed + t)} :: ComposeBytes(fed + t) == emitted + ComposeBytes(held + t)
  }

  lemma ExactStep(fed: seq<byte>, emitted: seq<byte>, held: seq<byte>, input: seq<byte>, cut: nat)
    requires Exact(fed, emitted, held)
    requires cut <= |held + input| && forall t :: Splits(held + input, cut, t)
    ensures Exact(fed + input, emitted + ComposeBytes((held + input)[..cut]), (held + input)[cut..])
  {
    var src := held + input;
    forall t
      ensures ComposeBytes(fed + input + t) == emitted + ComposeBytes(src[..cut]) + ComposeBytes(src[cut..] + t)
    {
      assert Splits(src, cut, t);
      ExactAt(fed, emitted, held, input, t);
    }
  }

  lemma ExactAt(fed: seq<byte>, emitted: seq<byte>, held: seq<byte>, input: seq<byte>, t: seq<byte>)
    requires Exact(fed, emitted, held)
    ensures ComposeBytes(fed + input + t) == emitted + ComposeBytes(held + input + t)
  {
    assert fed + input + t == fed + (input + t);
    assert held + input + t == held + (input + t);
  }

  lemma ExactEnd(fed: seq<byte>, emitted: seq<byte>, held: seq<byte>)
    requires Exact(fed, emitted, held)
    ensures ComposeBytes(fed) == emitted + ComposeBytes(held)
  {
    assert fed + [] == fed && held + [] == held;
  }

  /** Bytes held back between calls, and (ghost) everything fed and written so far. */
  class TxtStream {
    const pend: array<byte>
    var npend: nat
    ghost var fed: seq<byte>
    ghost var emitted: seq<byte>

    ghost predicate Valid()
      reads this, pend
    {
      && pend.Length == PEND_MAX
      && npend <= 11
      && Exact(fed, emitted, pend[..npend])
    }

    constructor ()
      ensures Valid() && npend == 0 && fed == [] && emitted == [] && fresh(pend)
    {
      pend := new byte[PEND_MAX];
      npend, fed, emitted := 0, [], [];
      new;
      forall t ensures ComposeBytes([] + t) == [] + ComposeBytes(pend[..0] + t) {
        assert [] + t == t && pend[..0] + t == t;
      }
    }

    /** The held bytes in front of the new chunk, clamped to the joining buffer. */
    method Splice(input: seq<byte>) returns (src: seq<byte>)
      requires pend.Length == PEND_MAX && npend <= PEND_MAX
      modifies `npend
      ensures npend == 0 && |src| <= old(npend) + |input|
      ensures old(npend) == 0 || old(npend) + |input| <= JOIN_MAX ==> src == old(pend[..npend]) + input
    {
      if npend <= 0 {
        return input;
      }
      var n := |input|;
      if npend + n > JOIN_MAX {
        n := JOIN_MAX - npend;
      }
      src := pend[..npend] + input[..n];
      npend := 0;
    }

    method Hold(p: seq<byte>)
      requires pend.Length == PEND_MAX
      modifies pend, `npend
      ensures 0 < |p| <= PEND_MAX ==> npend == |p|
      ensures |p| == 0 ==> npend == old(npend)
      ensures |p| <= PEND_MAX ==> pend[..|p|] == p
    {
      if |p| <= 0 {
        return;
      }
      var n := |p|;
      if n > PEND_MAX {
        n := PEND_MAX;
      }
      Write(pend, 0, p[..n]);
      npend := n;
    }

    /**
      Convert one chunk. Whenever the chunk fits the joining buffer and the output has room
      for what was held plus what is new, the call succeeds and the stream stays exact.
    */
    method TxtOut(input: seq<byte>, out: array<byte>, omax: nat) returns (r: int)
      requires Valid() && omax <= out.Length && out != pend
      modifies this, pend, out
      ensures npend <= 11
      ensures r < 0 ==> omax < old(npend) + |input|
      ensures r >= 0 && (old(npend) == 0 || old(npend) + |input| <= JOIN_MAX) ==>
        && Valid() && r <= omax
        && fed == old(fed) + input
        && emitted == old(emitted) + out[..r]
    {
      ghost var held := pend[..npend];
      ghost var fits := npend == 0 || npend + |input| <= JOIN_MAX;
      var src := Splice(input);
      var lim := SafeEnd(src);
      Hold(src[lim..]);
      assert pend[..npend] == src[lim..];
      r := ComposeBuffer(src[..lim], out, omax);
      if r >= 0 && fits {
        ExactStep(fed, emitted, held, input, lim);
        fed := fed + input;
        emitted := emitted + out[..r];
      }
    }

    /** End of stream: everything written is now the composed form of everything fed. */
    method TxtFlush(out: array<byte>, omax: nat) returns (r: int)
      requires Valid() && omax <= out.Length && out != pend
      modifies this, out
      ensures npend == 0 && fed == old(fed)
      ensures r < 0 ==> omax < old(npend)
      ensures r >= 0 ==> r <= omax && emitted == old(emitted) + out[..r] && emitted == ComposeBytes(fed)
    {
      ExactEnd(fed, emitted, pend[..npend]);
      if npend <= 0 {
        emitted := emitted + out[..0];
        return 0;
      }
      r := ComposeBuffer(pend[..npend], out, omax);
      npend := 0;
      if r >= 0 { emitted := emitted + out[..r]; }
    }
  }

  /**
    A whole stream, in any chunks that fit the joining buffer beside the longest possible
    tail, comes out as the one-shot composition of its concatenation.
  */
  method ConvertStream(chunks: seq<seq<byte>>) returns (wire: seq<byte>)
    requires forall c :: c in chunks ==> |c| <= JOIN_MAX - 11
    ensures wire == ComposeBytes(Flatten(chunks))
    ensures |wire| <= |Flatten(chunks)|
  {
    var cv := new TxtStream();
    var out := new byte[JOIN_MAX];
    wire := [];
    for i := 0 to |chunks|
      invariant cv.Valid() && out != cv.pend && fresh(cv) && fresh(cv.pend)
      invariant cv.fed == Flatten(chunks[..i]) && wire == cv.emitted
    {
      var n := cv.TxtOut(chunks[i], out, out.Length);
      wire := wire + out[..n];
      assert chunks[..i + 1] == chunks[..i] + [chunks[i]];
      FlattenSnoc(chunks[..i], chunks[i]);
    }
    var n := cv.TxtFlush(out, out.Length);
    wire := wire + out[..n];
    assert chunks[..|chunks|] == chunks;
    ComposeBytesReads(Flatten(chunks));
  }
}
