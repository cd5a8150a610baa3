/** ISO day keys ("YYYY-MM-DD") as the table store compares them. The keys
    are otherwise opaque: for well-formed keys of equal length the
    lexicographic order below is the calendar order. */
module Days {

  /** `a <= b` in lexicographic order of characters. */
  predicate DayLe(a: string, b: string)
    decreases |a|
  {
    if a == [] then true
    else if b == [] then false
    else a[0] < b[0] || (a[0] == b[0] && DayLe(a[1..], b[1..]))
  }

  /** The store's `.gte("day_date", from).lte("day_date", to)`: both ends inclusive. */
  predicate Between(from: string, day: string, to: string) {
    DayLe(from, day) && DayLe(day, to)
  }

  /** The order is reflexive, so a window's own bounds lie inside it. */
  lemma {:induction false} DayLeReflexive(a: string)
    ensures DayLe(a, a)
    decreases |a|
  {
    if a != [] { DayLeReflexive(a[1..]); }
  }

  /** The order is antisymmetric: two keys at most each other are equal. */
  lemma {:induction false} DayLeAntisymmetric(a: string, b: string)
    requires DayLe(a, b) && DayLe(b, a)
    ensures a == b
    decreases |a|
  {
    if a != [] {
      DayLeAntisymmetric(a[1..], b[1..]);
      assert a == [a[0]] + a[1..] && b == [b[0]] + b[1..];
    }
  }

  /** A window whose two bounds are the same key holds exactly that key. */
  lemma BetweenSelf(d: string, x: string)
    ensures Between(d, x, d) <==> x == d
  {
    DayLeReflexive(d);
    if Between(d, x, d) {
      DayLeAntisymmetric(x, d);
    }
  }
}
