/** String order and small facts about sequences shared by the models.
    Strings are compared the way Python compares them: by code point, left to right. */
module Strings {

  datatype Option<+T> = None | Some(value: T)

  /** `a` comes strictly before `b` in Python's string order. */
  predicate Less(a: string, b: string) {
    b != [] && (a == [] || a[0] < b[0] || (a[0] == b[0] && Less(a[1..], b[1..])))
  }

  lemma LessIrreflexive(a: string)
    ensures !Less(a, a)
  {}

  lemma {:induction false} LessTransitive(a: string, b: string, c: string)
    requires Less(a, b) && Less(b, c)
    ensures Less(a, c)
  {
    if a != [] && a[0] == b[0] && b[0] == c[0] {
      LessTransitive(a[1..], b[1..], c[1..]);
    }
  }

  lemma {:induction false} LessTotal(a: string, b: string)
    ensures a == b || Less(a, b) || Less(b, a)
  {
    if a != [] && b != [] && a[0] == b[0] {
      LessTotal(a[1..], b[1..]);
      assert a == [a[0]] + a[1..] && b == [b[0]] + b[1..];
    }
  }

  /** A proper prefix comes first: why a folder sorts before everything below it. */
  lemma {:induction false} PrefixIsLess(p: string, s: string)
    requires p <= s && p != s
    ensures Less(p, s)
  {
    if p != [] {
      PrefixIsLess(p[1..], s[1..]);
    }
  }

  /** Otherwise the first difference decides, by code point. */
  lemma {:induction false} FirstDifferenceDecides(p: string, a: char, s: string, b: char, t: string)
    requires a != b
    ensures Less(p + [a] + s, p + [b] + t) <==> a < b
  {
    var u, v := p + [a] + s, p + [b] + t;
    if p == "" {
      assert u[0] == a && v[0] == b;
    } else {
      assert u[0] == v[0] && u[1..] == p[1..] + [a] + s && v[1..] == p[1..] + [b] + t;
      FirstDifferenceDecides(p[1..], a, s, b, t);
    }
  }

  /** `s` contains `pat` as a substring (Python's `pat in s`). */
  predicate Contains(s: string, pat: string) {
    pat <= s || (s != [] && Contains(s[1..], pat))
  }
}
