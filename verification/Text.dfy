/** Strings as the application compares them: case folding and lexicographic order. */
module Text {

  /** The optional value of a nullable column or of a dictionary lookup. */
  datatype Option<+T> = None | Some(value: T)

  function FoldChar(c: char): char {
    if 'A' <= c <= 'Z' then c - 'A' + 'a' else c
  }

  /** `str.casefold()` and SQL `lower()`, on the ASCII letters. */
  function Fold(s: string): (f: string)
    ensures |f| == |s|
    ensures forall i :: 0 <= i < |s| ==> f[i] == FoldChar(s[i])
  {
    seq(|s|, i requires 0 <= i < |s| => FoldChar(s[i]))
  }

  lemma FoldedLetters(c: char)
    ensures var upper, lower := "ABCDEFGHIJKLMNOPQRSTUVWXYZ", "abcdefghijklmnopqrstuvwxyz";
            (forall i :: 0 <= i < 26 ==> FoldChar(upper[i]) == lower[i]) && (c !in upper ==> FoldChar(c) == c)
  {
    var upper := "ABCDEFGHIJKLMNOPQRSTUVWXYZ";
    if 'A' <= c <= 'Z' {
      assert upper[c as int - 65] == c;
    }
  }

  lemma FoldConcat(s: string, t: string)
    ensures Fold(s + t) == Fold(s) + Fold(t)
  {
  }

  lemma FoldTwice(s: string)
    ensures Fold(Fold(s)) == Fold(s)
  {
  }

  /** Lexicographic order on code points, as Python and SQL order folded text. */
  predicate Le(s: string, t: string) {
    s == [] || (t != [] && (s[0] < t[0] || (s[0] == t[0] && Le(s[1..], t[1..]))))
  }

  lemma {:induction false} LeTotal(s: string, t: string)
    ensures Le(s, t) || Le(t, s)
  {
    if s != [] && t != [] && s[0] == t[0] {
      LeTotal(s[1..], t[1..]);
    }
  }

  lemma {:induction false} LeTransitive(s: string, t: string, u: string)
    requires Le(s, t) && Le(t, u)
    ensures Le(s, u)
  {
    if s != [] && s[0] == t[0] && t[0] == u[0] {
      LeTransitive(s[1..], t[1..], u[1..]);
    }
  }

  lemma {:induction false} LeAntisymmetric(s: string, t: string)
    requires Le(s, t) && Le(t, s)
    ensures s == t
  {
    if s != [] {
      LeAntisymmetric(s[1..], t[1..]);
      assert s == [s[0]] + s[1..] && t == [t[0]] + t[1..];
    }
  }

  /** A proper prefix sorts before its extensions. */
  lemma {:induction false} PrefixLe(s: string, t: string)
    requires s <= t
    ensures Le(s, t)
  {
    if s != [] {
      PrefixLe(s[1..], t[1..]);
    }
  }
}
