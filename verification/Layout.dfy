/**
  The shape every packet body shares: a run of variable-length fields laid end to end, described
  by a table of their lengths.
*/
module Layout {
  import opened Base

  function Flatten(ps: seq<Bytes>): Bytes {
    if ps == [] then [] else ps[0] + Flatten(ps[1..])
  }

  function Total(ls: seq<nat>): nat {
    if ls == [] then 0 else ls[0] + Total(ls[1..])
  }

  function Lengths(ps: seq<Bytes>): seq<nat> {
    seq(|ps|, i requires 0 <= i < |ps| => |ps[i]|)
  }

  predicate AllShort(ps: seq<Bytes>) {
    forall i | 0 <= i < |ps| :: |ps[i]| <= 255
  }

  /** The length table of fields that each fit a one-byte length. */
  function LengthBytes(ps: seq<Bytes>): (r: Bytes)
    requires AllShort(ps)
    ensures |r| == |ps|
  {
    seq(|ps|, i requires 0 <= i < |ps| => |ps[i]|)
  }

  /** Cuts `d` into consecutive pieces of the given lengths. */
  function Cut(d: Bytes, ls: seq<nat>): (ps: seq<Bytes>)
    requires Total(ls) == |d|
    ensures |ps| == |ls|
    decreases |ls|
  {
    if ls == [] then [] else [d[..ls[0]]] + Cut(d[ls[0]..], ls[1..])
  }

  lemma {:induction false} FlattenLength(ps: seq<Bytes>)
    ensures |Flatten(ps)| == Total(Lengths(ps))
  {
    if ps != [] {
      assert Lengths(ps)[1..] == Lengths(ps[1..]);
      FlattenLength(ps[1..]);
    }
  }

  lemma {:induction false} FlattenAppend(ps: seq<Bytes>, qs: seq<Bytes>)
    ensures Flatten(ps + qs) == Flatten(ps) + Flatten(qs)
  {
    if ps == [] {
      assert ps + qs == qs;
    } else {
      assert (ps + qs)[1..] == ps[1..] + qs;
      FlattenAppend(ps[1..], qs);
    }
  }

  lemma {:induction false} TotalAppend(xs: seq<nat>, ys: seq<nat>)
    ensures Total(xs + ys) == Total(xs) + Total(ys)
  {
    if xs == [] {
      assert xs + ys == ys;
    } else {
      assert (xs + ys)[1..] == xs[1..] + ys;
      TotalAppend(xs[1..], ys);
    }
  }

  lemma {:induction false} CutInvertsFlatten(ps: seq<Bytes>)
    ensures Total(Lengths(ps)) == |Flatten(ps)|
    ensures Cut(Flatten(ps), Lengths(ps)) == ps
  {
    FlattenLength(ps);
    if ps != [] {
      assert Lengths(ps)[1..] == Lengths(ps[1..]);
      var d := Flatten(ps);
      assert d[..|ps[0]|] == ps[0] && d[|ps[0]|..] == Flatten(ps[1..]);
      CutInvertsFlatten(ps[1..]);
    }
  }

  lemma LengthsCons(p: Bytes, ps: seq<Bytes>)
    ensures Lengths([p] + ps) == [|p|] + Lengths(ps)
  {
  }

  lemma {:induction false} FlattenInvertsCut(d: Bytes, ls: seq<nat>)
    requires Total(ls) == |d|
    ensures Flatten(Cut(d, ls)) == d
    ensures Lengths(Cut(d, ls)) == ls
    decreases |ls|
  {
    if ls != [] {
      var head, tail := d[..ls[0]], Cut(d[ls[0]..], ls[1..]);
      FlattenInvertsCut(d[ls[0]..], ls[1..]);
      var ps := [head] + tail;
      assert Cut(d, ls) == ps;
      assert Flatten(ps) == d by {
        assert ps[0] == head && ps[1..] == tail;
      }
      assert Lengths(ps) == ls by {
        LengthsCons(head, tail);
      }
    }
  }

  /** Splitting the pieces splits the table with them. */
  lemma CutSplits(d: Bytes, ls: seq<nat>, k: nat)
    requires Total(ls) == |d| && k <= |ls|
    ensures Lengths(Cut(d, ls)[..k]) == ls[..k]
    ensures Lengths(Cut(d, ls)[k..]) == ls[k..]
  {
    FlattenInvertsCut(d, ls);
    var ps := Cut(d, ls);
    assert Lengths(ps[..k]) == Lengths(ps)[..k];
    assert Lengths(ps[k..]) == Lengths(ps)[k..];
  }

  /** Slicing the next field out of a buffer at `pos` is one step of cutting. */
  lemma CutAt(data: Bytes, pos: nat, x: nat, rest: seq<nat>)
    requires pos + x + Total(rest) == |data|
    ensures Total([x] + rest) == x + Total(rest)
    ensures Cut(data[pos..], [x] + rest) == [data[pos..pos + x]] + Cut(data[pos + x..], rest)
  {
    var ls := [x] + rest;
    assert ls[1..] == rest;
    assert data[pos..][..x] == data[pos..pos + x] && data[pos..][x..] == data[pos + x..];
  }

  lemma TotalThree(x: nat, y: nat, z: nat, rest: seq<nat>)
    ensures Total([y, z] + rest) == y + z + Total(rest)
    ensures Total([x, y, z] + rest) == x + y + z + Total(rest)
  {
    TotalAppend([y, z], rest);
    TotalAppend([x, y, z], rest);
    assert [x, y, z][1..] == [y, z] && [y, z][1..] == [z] && [z][1..] == [];
    assert Total([z]) == z && Total([y, z]) == y + z;
  }

  lemma CutThree(data: Bytes, pos: nat, x: nat, y: nat, z: nat, rest: seq<nat>)
    requires pos + x + y + z + Total(rest) == |data|
    ensures Total([x, y, z] + rest) == |data| - pos
    ensures Cut(data[pos..], [x, y, z] + rest)
         == [data[pos..pos + x], data[pos + x..pos + x + y], data[pos + x + y..pos + x + y + z]] + Cut(data[pos + x + y + z..], rest)
  {
    CutAt(data, pos + x + y, z, rest);
    CutAt(data, pos + x, y, [z] + rest);
    CutAt(data, pos, x, [y] + ([z] + rest));
    assert [x] + ([y] + ([z] + rest)) == [x, y, z] + rest;
  }

  lemma CutTwo(data: Bytes, pos: nat, x: nat, y: nat, rest: seq<nat>)
    requires pos + x + y + Total(rest) == |data|
    ensures Total([x, y] + rest) == |data| - pos
    ensures Cut(data[pos..], [x, y] + rest)
         == [data[pos..pos + x], data[pos + x..pos + x + y]] + Cut(data[pos + x + y..], rest)
  {
    CutAt(data, pos + x, y, rest);
    CutAt(data, pos, x, [y] + rest);
    assert [x] + ([y] + rest) == [x, y] + rest;
  }

  /** Lengths that are each at most `most` add up to at most `most` times their number. */
  lemma {:induction false} TotalBound(ls: seq<nat>, most: nat)
    requires forall i | 0 <= i < |ls| :: ls[i] <= most
    ensures Total(ls) <= |ls| * most
  {
    if ls != [] {
      TotalBound(ls[1..], most);
    }
  }

  lemma FlattenTwo(p: Bytes, q: Bytes)
    ensures Flatten([p, q]) == p + q
  {
    assert [p, q][1..] == [q] && [q][1..] == [];
    assert Flatten([q]) == q;
  }

  lemma FlattenFour(p: Bytes, q: Bytes, s: Bytes, t: Bytes)
    ensures Flatten([p, q, s]) == p + q + s
    ensures Flatten([p, q, s, t]) == p + q + s + t
  {
    FlattenTwo(p, q);
    FlattenTwo(s, t);
    FlattenAppend([p, q], [s, t]);
    FlattenAppend([p, q], [s]);
    assert [p, q] + [s, t] == [p, q, s, t] && [p, q] + [s] == [p, q, s];
    assert [s][1..] == [];
  }
}
