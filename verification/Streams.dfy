/** Byte strings, their concatenation, and positions inside a concatenation. */
module Streams {

  datatype Option<+T> = None | Some(value: T)

  newtype Byte = b: int | 0 <= b < 256

  type Bytes = seq<Byte>

  const NEWLINE: Byte := 10

  function Min(a: nat, b: nat): nat {
    if a <= b then a else b
  }

  /** All parts, end to end. */
  function Flat<T>(parts: seq<seq<T>>): seq<T> {
    if parts == [] then [] else parts[0] + Flat(parts[1..])
  }

  function Sum(ns: seq<nat>): nat {
    if ns == [] then 0 else ns[0] + Sum(ns[1..])
  }

  function Sizes(parts: seq<Bytes>): (ns: seq<nat>)
    ensures |ns| == |parts|
    ensures forall i :: 0 <= i < |ns| ==> ns[i] == |parts[i]|
  {
    seq(|parts|, i requires 0 <= i < |parts| => |parts[i]|)
  }

  predicate EndsInNewline(s: Bytes) {
    s != [] && s[|s| - 1] == NEWLINE
  }

  lemma {:induction false} FlatConcat<T>(a: seq<seq<T>>, b: seq<seq<T>>)
    ensures Flat(a + b) == Flat(a) + Flat(b)
  {
    if a == [] {
      assert a + b == b;
    } else {
      assert (a + b)[1..] == a[1..] + b;
      FlatConcat(a[1..], b);
    }
  }

  lemma FlatSnoc<T>(a: seq<seq<T>>, x: seq<T>)
    ensures Flat(a + [x]) == Flat(a) + x
  {
    FlatConcat(a, [x]);
    assert Flat([x]) == x + Flat<T>([]);
  }

  lemma {:induction false} SumConcat(a: seq<nat>, b: seq<nat>)
    ensures Sum(a + b) == Sum(a) + Sum(b)
  {
    if a == [] {
      assert a + b == b;
    } else {
      assert (a + b)[1..] == a[1..] + b;
      SumConcat(a[1..], b);
    }
  }

  lemma SumSnoc(a: seq<nat>, n: nat)
    ensures Sum(a + [n]) == Sum(a) + n
  {
    SumConcat(a, [n]);
    assert Sum([n]) == n + Sum([]);
  }

  /** A prefix one longer adds exactly the next number, and never passes the total. */
  lemma SumPrefix(a: seq<nat>, i: nat)
    requires i < |a|
    ensures Sum(a[..i + 1]) == Sum(a[..i]) + a[i] <= Sum(a)
  {
    hide Sum;
    assert a[..i + 1] == a[..i] + [a[i]];
    SumSnoc(a[..i], a[i]);
    assert a == a[..i + 1] + a[i + 1..];
    SumConcat(a[..i + 1], a[i + 1..]);
  }

  lemma {:induction false} SumZeros(a: seq<nat>)
    requires forall i :: 0 <= i < |a| ==> a[i] == 0
    ensures Sum(a) == 0
  {
    if a != [] {
      SumZeros(a[1..]);
    }
  }

  lemma {:induction false} FlatSize(parts: seq<Bytes>)
    ensures |Flat(parts)| == Sum(Sizes(parts))
  {
    if parts != [] {
      FlatSize(parts[1..]);
      assert Sizes(parts)[1..] == Sizes(parts[1..]);
    }
  }

  lemma FlatSplit(parts: seq<Bytes>, k: nat)
    requires k < |parts|
    ensures Flat(parts) == Flat(parts[..k]) + (parts[k] + Flat(parts[k + 1..]))
    ensures |Flat(parts[..k])| == Sum(Sizes(parts)[..k])
  {
    assert parts == parts[..k] + parts[k..];
    FlatConcat(parts[..k], parts[k..]);
    assert parts[k..][1..] == parts[k + 1..];
    FlatSize(parts[..k]);
    assert Sizes(parts)[..k] == Sizes(parts[..k]);
  }

  lemma SliceMiddle<T>(a: seq<T>, b: seq<T>, c: seq<T>, from: nat, to: nat)
    requires from <= to <= |b|
    ensures (a + (b + c))[|a| + from..|a| + to] == b[from..to]
  {
  }

  /** Part k lies in the concatenation right after the parts before it. */
  lemma FlatSlice(parts: seq<Bytes>, k: nat, from: nat, to: nat)
    requires k < |parts| && from <= to <= |parts[k]|
    ensures Sum(Sizes(parts)[..k]) + |parts[k]| <= |Flat(parts)|
    ensures var p := Sum(Sizes(parts)[..k]); Flat(parts)[p + from..p + to] == parts[k][from..to]
  {
    hide Flat, Sum;
    FlatSplit(parts, k);
    SliceMiddle(Flat(parts[..k]), parts[k], Flat(parts[k + 1..]), from, to);
  }

  /** Which part holds position pos of the concatenation, and where inside that part. */
  function Locate(sizes: seq<nat>, pos: nat): (r: Option<(nat, nat)>)
    ensures r.Some? ==> r.value.0 < |sizes| && r.value.1 < sizes[r.value.0]
  {
    if sizes == [] then None
    else if pos < sizes[0] then Some((0, pos))
    else match Locate(sizes[1..], pos - sizes[0])
      case None => None
      case Some((k, o)) => Some((k + 1, o))
  }

  /** The pair (k, o) names position pos: o is inside part k and the parts before k make up the rest. */
  predicate Names(sizes: seq<nat>, pos: nat, k: nat, o: nat) {
    k < |sizes| && o < sizes[k] && Sum(sizes[..k]) + o == pos
  }

  /** Locate inverts prefix sums: it fails exactly past the end, and the pair it returns is the only one. */
  lemma {:induction false} LocateInverse(sizes: seq<nat>, pos: nat)
    ensures Locate(sizes, pos).None? <==> Sum(sizes) <= pos
    ensures forall k: nat, o: nat :: Names(sizes, pos, k, o) <==> Locate(sizes, pos) == Some((k, o))
  {
    if sizes != [] {
      var tail := sizes[1..];
      forall k: nat, o: nat
        ensures Names(sizes, pos, k, o) <==> Locate(sizes, pos) == Some((k, o))
      {
        if k == 0 {
          assert sizes[..0] == [];
        } else if k < |sizes| {
          assert sizes[..k] == [sizes[0]] + tail[..k - 1];
          assert Sum(sizes[..k]) == sizes[0] + Sum(tail[..k - 1]);
          if sizes[0] <= pos {
            LocateInverse(tail, pos - sizes[0]);
            assert Names(sizes, pos, k, o) <==> Names(tail, pos - sizes[0], k - 1, o);
          }
        } else if sizes[0] <= pos {
          LocateInverse(tail, pos - sizes[0]);
          assert !Names(tail, pos - sizes[0], k - 1, o);
        }
      }
      if sizes[0] <= pos {
        LocateInverse(tail, pos - sizes[0]);
      }
    }
  }
}
