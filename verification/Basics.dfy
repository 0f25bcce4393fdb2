/** What several components use. */
module Basics {

  datatype Option<+T> = None | Some(value: T)

  /** One reading of a collected record. */
  datatype Point<V> = Point(fieldName: string, value: V)

  /** The first `n` items, or all of them. */
  function First<T>(s: seq<T>, n: nat): (r: seq<T>)
    ensures |r| == if |s| < n then |s| else n
  {
    if |s| <= n then s else s[..n]
  }

  function Distance(a: int, b: int): int {
    if a < b then b - a else a - b
  }

  /** Where the marks are. */
  ghost function Marked(marks: seq<bool>): set<int> {
    set i | 0 <= i < |marks| && marks[i]
  }

  lemma MarkedNext(marks: seq<bool>)
    requires marks != []
    ensures var n := |marks| - 1;
            |Marked(marks)| == |Marked(marks[..n])| + if marks[n] then 1 else 0
  {
    var n := |marks| - 1;
    var before := Marked(marks[..n]);
    assert n !in before;
    assert Marked(marks) == if marks[n] then before + {n} else before;
  }

  /** An arbitrary element, as Go's map iteration picks one. */
  method AnyOf<T(==)>(s: set<T>) returns (x: T)
    requires s != {}
    ensures x in s
  {
    x :| x in s;
  }
}
