/** Octets, options and flattening, shared by the other modules. */
module Bytes {
  type byte = b: int | 0 <= b < 256
  type u32 = v: int | 0 <= v < 0x1_0000_0000

  datatype Option<+T> = None | Some(value: T) {
    predicate IsFailure() { None? }

    function PropagateFailure<U>(): Option<U>
      requires None?
    {
      None
    }

    function Extract(): T
      requires Some?
    {
      value
    }
  }

  function Flatten<T>(parts: seq<seq<T>>): seq<T> {
    if parts == [] then [] else parts[0] + Flatten(parts[1..])
  }

  lemma Assoc<T>(a: seq<T>, b: seq<T>, c: seq<T>)
    ensures a + b + c == a + (b + c)
  {
  }

  lemma SliceOfSlice<T>(s: seq<T>, a: nat, m: nat, k: nat, n: nat)
    requires a + m <= |s| && k + n <= m
    ensures s[a..a + m][k..k + n] == s[a + k..a + k + n]
  {
    var v, w := s[a..a + m][k..k + n], s[a + k..a + k + n];
    forall r | 0 <= r < n ensures v[r] == w[r] { }
  }

  /** The elements `e` lie at a position of `s`. */
  predicate Lies<T(==)>(s: seq<T>, pos: nat, e: seq<T>) {
    pos + |e| <= |s| && s[pos..pos + |e|] == e
  }

  lemma LiesSplit<T>(s: seq<T>, pos: nat, a: seq<T>, b: seq<T>)
    requires Lies(s, pos, a + b)
    ensures Lies(s, pos, a) && Lies(s, pos + |a|, b)
  {
    SliceOfSlice(s, pos, |a + b|, 0, |a|);
    SliceOfSlice(s, pos, |a + b|, |a|, |b|);
    assert (a + b)[0..|a|] == a && (a + b)[|a|..|a| + |b|] == b;
  }

  lemma {:induction false} FlattenAppend<T>(a: seq<seq<T>>, b: seq<seq<T>>)
    ensures Flatten(a + b) == Flatten(a) + Flatten(b)
  {
    if a == [] {
      assert a + b == b;
    } else {
      assert (a + b)[1..] == a[1..] + b;
      FlattenAppend(a[1..], b);
    }
  }

  lemma FlattenSnoc<T>(parts: seq<seq<T>>, p: seq<T>)
    ensures Flatten(parts + [p]) == Flatten(parts) + p
  {
    FlattenAppend(parts, [p]);
    assert Flatten([p]) == p + Flatten<T>([]);
  }

  /** Where the `i`-th part lies in the whole. */
  lemma FlattenAt<T>(parts: seq<seq<T>>, i: nat)
    requires i < |parts|
    ensures var k := |Flatten(parts[..i])|;
            k + |parts[i]| == |Flatten(parts[..i + 1])| <= |Flatten(parts)| && Flatten(parts)[k..k + |parts[i]|] == parts[i]
  {
    FlattenSnoc(parts[..i], parts[i]);
    assert parts[..i + 1] == parts[..i] + [parts[i]];
    FlattenAppend(parts[..i + 1], parts[i + 1..]);
    assert parts == parts[..i + 1] + parts[i + 1..];
  }
}
