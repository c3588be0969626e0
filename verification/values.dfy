/**
 * Cell values and the order pandas uses on them. Numbers are exact reals: the model has
 * neither the rounding of float64 nor the wrap-around of int64.
 */
module Values {
  import opened Wrappers

  datatype Value = Num(x: real) | Text(s: string)

  /** A table cell: a value, or missing (pandas' NaN/None). */
  type Cell = Option<Value>

  /** Lexicographic order on strings by code point, as Python's `<=` on `str`. */
  predicate StrLe(a: string, b: string)
    decreases |a|
  {
    |a| == 0 || (|b| > 0 && (a[0] < b[0] || (a[0] == b[0] && StrLe(a[1..], b[1..]))))
  }

  /**
   * The order on values: numbers by magnitude, strings lexicographically, and every
   * number before every string (the order pandas' `safe_sort` gives mixed group keys).
   */
  predicate Le(a: Value, b: Value) {
    match (a, b)
    case (Num(x), Num(y)) => x <= y
    case (Text(s), Text(t)) => StrLe(s, t)
    case (Num(_), Text(_)) => true
    case (Text(_), Num(_)) => false
  }

  /** `a` comes no later than `b` in an ascending (or, if not `ascending`, a descending) sort. */
  predicate Ordered(a: Value, b: Value, ascending: bool) {
    if ascending then Le(a, b) else Le(b, a)
  }

  lemma {:induction false} StrLeTotal(a: string, b: string)
    decreases |a|
    ensures StrLe(a, b) || StrLe(b, a)
  {
    if |a| > 0 && |b| > 0 && a[0] == b[0] {
      StrLeTotal(a[1..], b[1..]);
    }
  }

  lemma {:induction false} StrLeTrans(a: string, b: string, c: string)
    requires StrLe(a, b) && StrLe(b, c)
    decreases |a|
    ensures StrLe(a, c)
  {
    if |a| > 0 && a[0] == b[0] && b[0] == c[0] {
      StrLeTrans(a[1..], b[1..], c[1..]);
    }
  }

  lemma {:induction false} StrLeAntisym(a: string, b: string)
    requires StrLe(a, b) && StrLe(b, a)
    decreases |a|
    ensures a == b
  {
    if |a| > 0 {
      StrLeAntisym(a[1..], b[1..]);
      assert a == [a[0]] + a[1..] && b == [b[0]] + b[1..];
    }
  }

  lemma {:induction false} StrLeRefl(a: string)
    decreases |a|
    ensures StrLe(a, a)
  {
    if |a| > 0 {
      StrLeRefl(a[1..]);
    }
  }

  /** `Le` is a total order on values. */
  lemma LeTotalOrder(a: Value, b: Value, c: Value)
    ensures Le(a, a)
    ensures Le(a, b) || Le(b, a)
    ensures Le(a, b) && Le(b, a) ==> a == b
    ensures Le(a, b) && Le(b, c) ==> Le(a, c)
  {
    if a.Text? {
      StrLeRefl(a.s);
      if b.Text? {
        StrLeTotal(a.s, b.s);
        if Le(a, b) && Le(b, a) {
          StrLeAntisym(a.s, b.s);
        }
        if c.Text? && Le(a, b) && Le(b, c) {
          StrLeTrans(a.s, b.s, c.s);
        }
      }
    }
  }

  /** `Ordered` in either direction is a total order. */
  lemma OrderedTotalOrder(a: Value, b: Value, c: Value, ascending: bool)
    ensures Ordered(a, a, ascending)
    ensures Ordered(a, b, ascending) || Ordered(b, a, ascending)
    ensures Ordered(a, b, ascending) && Ordered(b, a, ascending) ==> a == b
    ensures Ordered(a, b, ascending) && Ordered(b, c, ascending) ==> Ordered(a, c, ascending)
  {
    LeTotalOrder(a, b, c);
    LeTotalOrder(c, b, a);
  }

  /**
   * The order of cells in a sort: values by `Ordered`, and a missing cell after every
   * value whichever the direction (pandas' `na_position="last"`).
   */
  predicate CellOrdered(a: Cell, b: Cell, ascending: bool) {
    b.None? || (a.Some? && Ordered(a.value, b.value, ascending))
  }

  /** `CellOrdered` in either direction is a total order on cells. */
  lemma CellOrderedTotalOrder(a: Cell, b: Cell, c: Cell, ascending: bool)
    ensures CellOrdered(a, a, ascending)
    ensures CellOrdered(a, b, ascending) || CellOrdered(b, a, ascending)
    ensures CellOrdered(a, b, ascending) && CellOrdered(b, a, ascending) ==> a == b
    ensures CellOrdered(a, b, ascending) && CellOrdered(b, c, ascending) ==> CellOrdered(a, c, ascending)
  {
    if a.Some? && b.Some? && c.Some? {
      OrderedTotalOrder(a.value, b.value, c.value, ascending);
    } else if a.Some? && b.Some? {
      OrderedTotalOrder(a.value, b.value, b.value, ascending);
    } else if a.Some? {
      OrderedTotalOrder(a.value, a.value, a.value, ascending);
    }
  }
}
