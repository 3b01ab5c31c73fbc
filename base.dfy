/** The fixed-size value layer of the geo math library: an M-component vector
    and an M x N matrix, both stored inline in fixed-size arrays.
    The scalar type T is abstract; its equality is Dafny's value equality. */
module Geo {

  /** Index of the first position where two equally long row sequences differ,
      or their common length when no position differs. This is where the
      row-by-row comparison of `Mat.Equals` stops. */
  function Mismatch<T(==)>(a: seq<seq<T>>, b: seq<seq<T>>): (r: nat)
    requires |a| == |b|
    ensures r <= |a|
    ensures forall k :: 0 <= k < r ==> a[k] == b[k]
    ensures r < |a| ==> a[r] != b[r]
  {
    if |a| == 0 then 0
    else if a[0] != b[0] then 0
    else 1 + Mismatch(a[1..], b[1..])
  }

  /** Two row sequences are equal exactly when no row differs; this follows
      from the contract of `Mismatch`. */
  lemma MismatchFullIffEqual<T>(a: seq<seq<T>>, b: seq<seq<T>>)
    requires |a| == |b|
    ensures Mismatch(a, b) == |a| <==> a == b
  {
  }

  /** An M-component vector; M is the length of `data`. */
  class Vec<T(==)> {
    const data: array<T>

    /** The component count M. */
    function Size(): nat {
      data.Length
    }

    /** Builds a vector from up to M values by aggregate initialisation:
        component i is the i-th argument, and the components after the last
        argument take `zero`, the value-initialised T. */
    constructor (m: nat, args: seq<T>, zero: T)
      requires |args| <= m
      ensures Size() == m && fresh(data)
      ensures forall i :: 0 <= i < |args| ==> ToArray()[i] == args[i]
      ensures forall i :: |args| <= i < m ==> ToArray()[i] == zero
    {
      data := new T[m](i => if 0 <= i < |args| then args[i] else zero);
    }

    /** The conversion to a plain array: a copy holding exactly the stored
        components, in order. */
    function ToArray(): (r: seq<T>)
      reads data
      ensures |r| == Size()
      ensures forall i :: 0 <= i < Size() ==> r[i] == data[i]
    {
      data[..]
    }

    /** Read access to component i; agrees with the conversion. */
    function At(i: nat): (r: T)
      reads data
      requires i < Size()
      ensures r == ToArray()[i]
    {
      data[i]
    }

    /** A write through the mutable index operator: component i becomes x and
        no other component changes. */
    method Set(i: nat, x: T)
      requires i < Size()
      modifies data
      ensures ToArray() == old(ToArray())[i := x]
      ensures At(i) == x
      ensures forall j :: 0 <= j < Size() && j != i ==> At(j) == old(At(j))
    {
      data[i] := x;
    }

    /** Array equality: all M components are pairwise equal. */
    function Equals(other: Vec<T>): (b: bool)
      reads data, other.data
      requires other.Size() == Size()
      ensures b <==> forall i :: 0 <= i < Size() ==> At(i) == other.At(i)
      ensures other == this ==> b
    {
      assert forall i :: 0 <= i < Size() ==> At(i) == ToArray()[i] && other.At(i) == other.ToArray()[i];
      ToArray() == other.ToArray()
    }

    /** The negation of `Equals`: some component differs. */
    function NotEquals(other: Vec<T>): (b: bool)
      reads data, other.data
      requires other.Size() == Size()
      ensures b <==> exists i :: 0 <= i < Size() && At(i) != other.At(i)
    {
      !Equals(other)
    }
  }

  /** An M x N matrix stored as M rows, each a value array of N scalars. */
  class Mat<T(==,0)> {
    const M: nat
    const N: nat
    const rows: array<seq<T>>

    ghost predicate Valid()
      reads rows
    {
      rows.Length == M && forall i :: 0 <= i < M ==> |rows[i]| == N
    }

    /** The rows, top to bottom. */
    ghost function Contents(): (s: seq<seq<T>>)
      reads rows
      requires Valid()
      ensures |s| == M && forall i :: 0 <= i < M ==> |s[i]| == N
    {
      rows[..]
    }

    /** Builds a matrix holding exactly the given nested array. */
    constructor FromArray(m: nat, n: nat, data: seq<seq<T>>)
      requires |data| == m && forall i :: 0 <= i < m ==> |data[i]| == n
      ensures M == m && N == n && Valid() && fresh(rows)
      ensures Contents() == data
    {
      M, N := m, n;
      rows := new seq<T>[m](i => if 0 <= i < |data| then data[i] else []);
    }

    /** Builds a matrix from up to M rows: a running counter writes the k-th
        argument into row k. The rows after the last argument are left
        uninitialised, so nothing is promised about their contents. */
    constructor FromRows(m: nat, n: nat, args: seq<seq<T>>)
      requires |args| <= m && forall k :: 0 <= k < |args| ==> |args[k]| == n
      ensures M == m && N == n && Valid() && fresh(rows)
      ensures forall k :: 0 <= k < |args| ==> Contents()[k] == args[k]
    {
      M, N := m, n;
      var storage := new T[n];
      var indeterminate := storage[..];
      rows := new seq<T>[m](_ => indeterminate);
      new;
      var i := 0;
      while i < |args|
        invariant 0 <= i <= |args|
        invariant Valid()
        invariant forall k :: 0 <= k < i ==> rows[k] == args[k]
      {
        rows[i] := args[i];
        i := i + 1;
      }
    }

    /** Read access to row i. */
    function Row(i: nat): (r: seq<T>)
      reads rows
      requires Valid() && i < M
      ensures |r| == N && r == Contents()[i]
    {
      rows[i]
    }

    /** Assignment through the mutable row reference: row i becomes `row`,
        every other row is unchanged. */
    method SetRow(i: nat, row: seq<T>)
      requires Valid() && i < M && |row| == N
      modifies rows
      ensures Valid()
      ensures Contents() == old(Contents())[i := row]
    {
      rows[i] := row;
    }

    /** A write of one scalar through the mutable row reference: entry (i, j)
        becomes x, every other entry is unchanged. */
    method SetAt(i: nat, j: nat, x: T)
      requires Valid() && i < M && j < N
      modifies rows
      ensures Valid()
      ensures Contents() == old(Contents())[i := old(Contents())[i][j := x]]
    {
      rows[i] := rows[i][j := x];
    }

    /** Row-by-row comparison with early exit. `inspected` is the number of
        rows compared: all M when the matrices are equal, otherwise up to and
        including the first differing row, and no row after it. */
    method Equals(other: Mat<T>) returns (b: bool, ghost inspected: nat)
      requires Valid() && other.Valid() && other.M == M && other.N == N
      ensures b <==> Contents() == other.Contents()
      ensures other == this ==> b
      ensures b <==> Mismatch(Contents(), other.Contents()) == M
      ensures inspected == if b then M else Mismatch(Contents(), other.Contents()) + 1
    {
      var i := 0;
      while i < M
        invariant 0 <= i <= M
        invariant forall k :: 0 <= k < i ==> rows[k] == other.rows[k]
      {
        if rows[i] != other.rows[i] {
          MismatchFullIffEqual(Contents(), other.Contents());
          return false, i + 1;
        }
        i := i + 1;
      }
      assert Contents() == other.Contents();
      MismatchFullIffEqual(Contents(), other.Contents());
      return true, M;
    }

    /** The negation of `Equals`: some row differs. */
    method NotEquals(other: Mat<T>) returns (b: bool)
      requires Valid() && other.Valid() && other.M == M && other.N == N
      ensures b <==> exists i :: 0 <= i < M && Row(i) != other.Row(i)
    {
      var eq;
      ghost var inspected;
      eq, inspected := Equals(other);
      b := !eq;
      if b {
        ghost var k := Mismatch(Contents(), other.Contents());
        assert Row(k) != other.Row(k);
      }
    }
  }
}
