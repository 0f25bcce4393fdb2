/** Go slices: a window on a backing array that other slices may share. A slot that holds a nil
    pointer is None. */
module Slices {
  import opened Basics

  datatype Slice<!T> = Nil | Slice(arr: array<Option<T>>, off: nat, len: nat, cap: nat) {
    ghost function Frame(): set<object> {
      if Nil? then {} else {arr}
    }

    predicate Valid() {
      Slice? ==> len <= cap && off + cap <= arr.Length
    }

    function Len(): nat {
      if Nil? then 0 else len
    }

    /** The elements, in order. */
    function Items(): (r: seq<Option<T>>)
      requires Valid()
      reads Frame()
      ensures |r| == Len()
    {
      if Nil? then [] else arr[off..off + len]
    }

    /** No room to append in place: the form `s[:len(s):len(s)]` leaves. */
    predicate Tight() {
      Slice? ==> cap == len
    }

    /** The window with its spare capacity. */
    function Whole(): (r: Slice<T>)
      requires Valid()
      ensures r.Valid() && (Tight() ==> r == this)
    {
      if Nil? then Nil else Slice(arr, off, cap, cap)
    }

    /** `s[from:to]` */
    function Sub(from: nat, to: nat): (r: Slice<T>)
      requires Valid() && from <= to <= Len()
      ensures r.Valid()
    {
      if Nil? then Nil else Slice(arr, off + from, to - from, cap - from)
    }

    /** `s[:len(s):len(s)]` */
    function Clip(): (r: Slice<T>)
      requires Valid()
      ensures r.Valid() && r.Tight() && r.Len() == Len()
    {
      if Nil? then Nil else Slice(arr, off, len, len)
    }
  }

  /** The two windows share no slot. */
  predicate Apart<T>(s: Slice<T>, t: Slice<T>) {
    s.Nil? || t.Nil? || s.arr != t.arr || s.off + s.len <= t.off || t.off + t.len <= s.off
  }

  /** `s[from:to]` shows that part of the elements. */
  lemma SubItems<T>(s: Slice<T>, from: nat, to: nat)
    requires s.Valid() && from <= to <= s.Len()
    ensures s.Sub(from, to).Items() == s.Items()[from..to]
  {
    if s.Slice? {
      var part, whole := s.Sub(from, to).Items(), s.Items();
      assert |part| == to - from;
      assert forall i :: 0 <= i < to - from ==> part[i] == s.arr[s.off + from + i] == whole[from + i];
    }
  }

  lemma ClipItems<T>(s: Slice<T>)
    requires s.Valid()
    ensures s.Clip().Items() == s.Items()
  {
  }

  /** `clear(s)`. Windows apart from `s` keep their elements. */
  method Clear<T>(s: Slice<T>, ghost kept: Slice<T>, ghost other: Slice<T>)
    requires s.Valid() && kept.Valid() && other.Valid()
    modifies s.Frame()
    ensures forall i :: 0 <= i < s.Len() ==> s.Items()[i] == None
    ensures Apart(s, kept) ==> kept.Items() == old(kept.Items())
    ensures Apart(s, other) ==> other.Items() == old(other.Items())
  {
    if s.Slice? {
      for i := 0 to s.len
        invariant forall j :: s.off <= j < s.off + i ==> s.arr[j] == None
        invariant Apart(s, kept) ==> kept.Items() == old(kept.Items())
        invariant Apart(s, other) ==> other.Items() == old(other.Items())
      {
        s.arr[s.off + i] := None;
      }
    }
  }

  /** `append(s, x)`: in place when there is room, else in a new array of unspecified larger size. A
      window apart from `s` and its spare capacity keeps its elements. */
  method Append<T>(s: Slice<T>, x: Option<T>, ghost other: Slice<T>) returns (r: Slice<T>)
    requires s.Valid() && other.Valid()
    modifies if s.Tight() then {} else s.Frame()
    ensures r.Valid() && r.Slice? && r.Items() == old(s.Items()) + [x]
    ensures s.Tight() || s.Nil? ==> fresh(r.arr)
    ensures !fresh(r.arr) ==> s.Slice? && r.arr == s.arr && r.off == s.off
    ensures Apart(s.Whole(), other) ==> other.Items() == old(other.Items())
  {
    if s.Slice? && s.len < s.cap {
      s.arr[s.off + s.len] := x;
      return Slice(s.arr, s.off, s.len + 1, s.cap);
    }
    r := Grow(s, x);
  }

  /** Copies a slice, with one more element, to a new array. */
  method Grow<T>(s: Slice<T>, x: Option<T>) returns (r: Slice<T>)
    requires s.Valid()
    ensures r.Valid() && r.Slice? && fresh(r.arr) && r.Items() == s.Items() + [x]
  {
    var n := s.Len();
    var c :| n + 1 <= c;
    var a := new Option<T>[c](_ => None);
    if s.Slice? {
      for i := 0 to n
        invariant forall j :: 0 <= j < i ==> a[j] == s.arr[s.off + j]
      {
        a[i] := s.arr[s.off + i];
      }
    }
    a[n] := x;
    r := Slice(a, 0, n + 1, c);
    assert a[0..n + 1] == s.Items() + [x];
  }
}
