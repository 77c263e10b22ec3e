/**
 * The values the list comparators order items by.  A sort key is either a
 * count (the length of an array-valued field, a comment total, a moderation
 * flag) or a text (a timestamp string).  Texts are ordered the way the
 * relational operators order strings: lexicographically, character by
 * character, a proper prefix before its extensions.
 */
module Keys {

  /** Lexicographic strict order on strings. */
  predicate TextLess(s: string, t: string)
    decreases |s|
  {
    if s == [] then t != []
    else if t == [] then false
    else s[0] < t[0] || (s[0] == t[0] && TextLess(s[1..], t[1..]))
  }

  lemma {:induction false} TextLessIrreflexive(s: string)
    ensures !TextLess(s, s)
    decreases |s|
  {
    if s != [] {
      TextLessIrreflexive(s[1..]);
    }
  }

  lemma {:induction false} TextLessTransitive(s: string, t: string, u: string)
    requires TextLess(s, t) && TextLess(t, u)
    ensures TextLess(s, u)
    decreases |s|
  {
    if s != [] && s[0] == t[0] && t[0] == u[0] {
      TextLessTransitive(s[1..], t[1..], u[1..]);
    }
  }

  lemma {:induction false} TextLessTotal(s: string, t: string)
    requires s != t
    ensures TextLess(s, t) || TextLess(t, s)
    decreases |s|
  {
    if s != [] && t != [] && s[0] == t[0] {
      assert s == [s[0]] + s[1..] && t == [t[0]] + t[1..];
      TextLessTotal(s[1..], t[1..]);
    }
  }

  datatype SortKey = Count(n: nat) | Text(s: string)

  /**
   * Strict order on keys.  Every comparator draws all of its keys from one
   * of the two kinds, so the order between a count and a text is never
   * consulted; counts are put first only to make the order total.
   */
  predicate KeyLess(x: SortKey, y: SortKey)
  {
    match (x, y)
    case (Count(m), Count(n)) => m < n
    case (Text(s), Text(t)) => TextLess(s, t)
    case (Count(_), Text(_)) => true
    case (Text(_), Count(_)) => false
  }

  predicate KeyLe(x: SortKey, y: SortKey)
  {
    x == y || KeyLess(x, y)
  }

  lemma KeyLessIrreflexive(x: SortKey)
    ensures !KeyLess(x, x)
  {
    if x.Text? {
      TextLessIrreflexive(x.s);
    }
  }

  lemma KeyLessTransitive(x: SortKey, y: SortKey, z: SortKey)
    requires KeyLess(x, y) && KeyLess(y, z)
    ensures KeyLess(x, z)
  {
    if x.Text? && y.Text? && z.Text? {
      TextLessTransitive(x.s, y.s, z.s);
    }
  }

  /** Exactly one of `x < y`, `x == y`, `y < x` holds. */
  lemma KeyTrichotomy(x: SortKey, y: SortKey)
    ensures KeyLess(x, y) || x == y || KeyLess(y, x)
    ensures !(KeyLess(x, y) && KeyLess(y, x))
    ensures KeyLess(x, y) ==> x != y
  {
    KeyLessIrreflexive(x);
    if x.Text? && y.Text? {
      if x.s != y.s {
        TextLessTotal(x.s, y.s);
      }
      if TextLess(x.s, y.s) && TextLess(y.s, x.s) {
        TextLessTransitive(x.s, y.s, x.s);
      }
    }
  }

  lemma KeyLeTransitive(x: SortKey, y: SortKey, z: SortKey)
    requires KeyLe(x, y) && KeyLe(y, z)
    ensures KeyLe(x, z)
  {
    if x != y && y != z {
      KeyLessTransitive(x, y, z);
    }
  }

  lemma KeyLeAntisymmetric(x: SortKey, y: SortKey)
    requires KeyLe(x, y) && KeyLe(y, x)
    ensures x == y
  {
    KeyTrichotomy(x, y);
  }

  lemma KeyLeTotal(x: SortKey, y: SortKey)
    ensures KeyLe(x, y) || KeyLess(y, x)
  {
    KeyTrichotomy(x, y);
  }
}
