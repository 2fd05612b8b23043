/** The JavaScript string operations the handlers use: `startsWith` and `split`
    with a one-character separator. A string is a sequence of Unicode scalar values. */
module Text {

  /** `s.startsWith(prefix)`. */
  predicate StartsWith(s: string, prefix: string) {
    |prefix| <= |s| && s[..|prefix|] == prefix
  }

  /** Number of occurrences of `c` in `s`. */
  function Occurrences(s: string, c: char): nat {
    if |s| == 0 then 0 else (if s[0] == c then 1 else 0) + Occurrences(s[1..], c)
  }

  lemma {:induction false} OccurrencesZero(s: string, c: char)
    ensures Occurrences(s, c) == 0 <==> c !in s
  {
    if |s| > 0 {
      OccurrencesZero(s[1..], c);
      assert s == [s[0]] + s[1..];
    }
  }

  /** The pieces glued back together with `sep` between neighbours; the inverse of `Split`. */
  function Join(parts: seq<string>, sep: char): string
    requires |parts| >= 1
  {
    if |parts| == 1 then parts[0] else parts[0] + [sep] + Join(parts[1..], sep)
  }

  /** `s.split(sep)` for a one-character separator: the separator-free pieces between
      consecutive separators, in order, empty pieces included. */
  function Split(s: string, sep: char): (parts: seq<string>)
    ensures |parts| == Occurrences(s, sep) + 1
    ensures forall k :: 0 <= k < |parts| ==> sep !in parts[k]
    ensures Join(parts, sep) == s
    decreases |s|
  {
    if |s| == 0 then [""]
    else
      var rest := Split(s[1..], sep);
      if s[0] == sep then
        assert s == [sep] + s[1..];
        [""] + rest
      else
        var parts := [[s[0]] + rest[0]] + rest[1..];
        assert Join(parts, sep) == s by {
          if |rest| > 1 {
            assert parts[1..] == rest[1..];
            assert Join(rest, sep) == rest[0] + [sep] + Join(rest[1..], sep);
          }
          assert s == [s[0]] + s[1..];
        }
        parts
  }

  /** Split yields a single piece exactly when the separator does not occur. */
  lemma SplitWhole(s: string, sep: char)
    ensures |Split(s, sep)| == 1 <==> sep !in s
    ensures sep !in s ==> Split(s, sep) == [s]
  {
    OccurrencesZero(s, sep);
  }

  /** A separator-free decomposition is determined by the joined string. */
  lemma {:induction false} JoinInjective(p: seq<string>, q: seq<string>, sep: char)
    requires |p| >= 1 && |q| >= 1
    requires forall k :: 0 <= k < |p| ==> sep !in p[k]
    requires forall k :: 0 <= k < |q| ==> sep !in q[k]
    requires Join(p, sep) == Join(q, sep)
    ensures p == q
  {
    var s := Join(p, sep);
    if |p| == 1 && |q| == 1 {
    } else if |p| == 1 || |q| == 1 {
      // one side is separator-free, the other holds a separator
      assert false;
    } else {
      var a, b := p[0], q[0];
      assert s == a + [sep] + Join(p[1..], sep);
      assert s == b + [sep] + Join(q[1..], sep);
      // the shorter first piece would end where the longer one holds a separator
      PieceChars(a, Join(p[1..], sep), sep);
      PieceChars(b, Join(q[1..], sep), sep);
      if |a| < |b| {
        assert false;
      } else if |b| < |a| {
        assert false;
      } else {
        assert a == s[..|a|] == b;
        assert Join(p[1..], sep) == s[|a| + 1..] == Join(q[1..], sep);
        JoinInjective(p[1..], q[1..], sep);
        assert p == [a] + p[1..];
        assert q == [b] + q[1..];
      }
    }
  }

  lemma PieceChars(a: string, rest: string, sep: char)
    ensures (a + [sep] + rest)[|a|] == sep
    ensures forall i :: 0 <= i < |a| ==> (a + [sep] + rest)[i] == a[i]
  {
  }

  /** Split is the only separator-free decomposition of `s`. */
  lemma SplitUnique(s: string, sep: char, parts: seq<string>)
    requires |parts| >= 1
    requires forall k :: 0 <= k < |parts| ==> sep !in parts[k]
    requires Join(parts, sep) == s
    ensures Split(s, sep) == parts
  {
    JoinInjective(Split(s, sep), parts, sep);
  }

  /** Splitting `a + [sep] + b` where neither side holds the separator. */
  lemma SplitPair(a: string, b: string, sep: char)
    requires sep !in a && sep !in b
    ensures Split(a + [sep] + b, sep) == [a, b]
  {
    var parts := [a, b];
    assert parts[1..] == [b];
    SplitUnique(a + [sep] + b, sep, parts);
  }
}
