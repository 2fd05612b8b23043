/** The meaning of the JavaScript regular expressions the bot tests message bodies
    against. Without the `u` flag a JavaScript regular expression reads its subject
    as UTF-16 code units, and `test` succeeds when some stretch of units anywhere in
    the subject matches (the patterns here have no anchors). */
module Regex {

  /** A UTF-16 code unit. */
  type Unit = x: int | 0 <= x < 0x1_0000

  predicate AllBmp(s: string) {
    forall k :: 0 <= k < |s| ==> s[k] as int < 0x1_0000
  }

  /** The UTF-16 encoding of one Unicode scalar value. */
  function CharUnits(c: char): (u: seq<Unit>)
    ensures 1 <= |u| <= 2
    ensures |u| == 1 <==> c as int < 0x1_0000
    ensures |u| == 1 ==> u[0] == c as int
    ensures |u| == 2 ==> 0xD800 <= u[0] < 0xDC00 <= u[1] < 0xE000
  {
    var v := c as int;
    if v < 0x1_0000 then [v]
    else [0xD800 + (v - 0x1_0000) / 0x400, 0xDC00 + (v - 0x1_0000) % 0x400]
  }

  /** The UTF-16 encoding of a string: how JavaScript holds it. */
  function Utf16(s: string): (u: seq<Unit>)
    ensures |s| <= |u| <= 2 * |s|
    ensures AllBmp(s) ==> |u| == |s| && forall k :: 0 <= k < |s| ==> u[k] == s[k] as int
  {
    if |s| == 0 then [] else CharUnits(s[0]) + Utf16(s[1..])
  }

  lemma {:induction false} Utf16Concat(a: string, b: string)
    ensures Utf16(a + b) == Utf16(a) + Utf16(b)
  {
    if |a| > 0 {
      assert (a + b)[1..] == a[1..] + b;
      Utf16Concat(a[1..], b);
    } else {
      assert a + b == b;
    }
  }

  /** A string of single-unit characters embedded in any text sits at the units of what precedes it. */
  lemma UnitsAtEmbedded(pre: string, w: string, post: string)
    requires AllBmp(w)
    ensures UnitsAt(Utf16(pre + w + post), |Utf16(pre)|, w)
  {
    Utf16Concat(pre + w, post);
    Utf16Concat(pre, w);
    var u := Utf16(pre + w + post);
    assert u == Utf16(pre) + Utf16(w) + Utf16(post);
    forall k | 0 <= k < |w| ensures u[|Utf16(pre)| + k] == w[k] as int {
      assert u[|Utf16(pre)| + k] == Utf16(w)[k];
    }
  }

  /** What `.` refuses to match: LF, CR, LINE SEPARATOR and PARAGRAPH SEPARATOR. */
  predicate IsLineTerminator(u: int) {
    u == 0x0A || u == 0x0D || u == 0x2028 || u == 0x2029
  }

  /** The characters of `text` (each a single unit) occur in `u` from index `i`. */
  predicate UnitsAt(u: seq<Unit>, i: int, text: string) {
    0 <= i && i + |text| <= |u| && forall k :: 0 <= k < |text| ==> u[i + k] == text[k] as int
  }

  lemma UnitsAtConcat(u: seq<Unit>, i: int, a: string, b: string)
    ensures UnitsAt(u, i, a + b) <==> UnitsAt(u, i, a) && UnitsAt(u, i + |a|, b)
  {
    if UnitsAt(u, i, a) && UnitsAt(u, i + |a|, b) {
      forall k | 0 <= k < |a + b| ensures u[i + k] == (a + b)[k] as int {
        if k >= |a| {
          assert u[(i + |a|) + (k - |a|)] == b[k - |a|] as int;
        }
      }
    }
    if UnitsAt(u, i, a + b) {
      forall k | 0 <= k < |a| ensures u[i + k] == a[k] as int {
        assert (a + b)[k] == a[k];
      }
      forall k | 0 <= k < |b| ensures u[i + |a| + k] == b[k] as int {
        assert (a + b)[|a| + k] == b[k];
      }
    }
  }

  /** Literal text, `.`, concatenation, `|`, `?`, `*` and `+`. */
  datatype Regex =
    | Lit(text: string)
    | Dot
    | Cat(first: Regex, second: Regex)
    | Alt(left: Regex, right: Regex)
    | Opt(inner: Regex)
    | Star(inner: Regex)
    | Plus(inner: Regex)

  function Size(r: Regex): nat {
    match r
    case Lit(_) => 1
    case Dot => 1
    case Cat(a, b) => 1 + Size(a) + Size(b)
    case Alt(a, b) => 1 + Size(a) + Size(b)
    case Opt(a) => 1 + Size(a)
    case Star(a) => 1 + Size(a)
    case Plus(a) => 2 + Size(a)
  }

  /** `r` matches exactly the units `u[i..j]`. */
  ghost predicate Spans(r: Regex, u: seq<Unit>, i: int, j: int)
    requires 0 <= i <= j <= |u|
    decreases Size(r), j - i
  {
    match r
    case Lit(text) => j - i == |text| && UnitsAt(u, i, text)
    case Dot => j == i + 1 && !IsLineTerminator(u[i])
    case Cat(a, b) => exists k :: i <= k <= j && Spans(a, u, i, k) && Spans(b, u, k, j)
    case Alt(a, b) => Spans(a, u, i, j) || Spans(b, u, i, j)
    case Opt(a) => i == j || Spans(a, u, i, j)
    case Star(a) => i == j || exists k :: i < k <= j && Spans(a, u, i, k) && Spans(Star(a), u, k, j)
    case Plus(a) => exists k :: i <= k <= j && Spans(a, u, i, k) && Spans(Star(a), u, k, j)
  }

  /** `RegExp.prototype.test` for a pattern without anchors: some stretch matches. */
  ghost predicate Test(r: Regex, u: seq<Unit>) {
    exists i, j :: 0 <= i <= j <= |u| && Spans(r, u, i, j)
  }

  /** The split point of a concatenation's match. */
  lemma CatSplit(a: Regex, b: Regex, u: seq<Unit>, i: int, j: int) returns (k: int)
    requires 0 <= i <= j <= |u| && Spans(Cat(a, b), u, i, j)
    ensures i <= k <= j && Spans(a, u, i, k) && Spans(b, u, k, j)
  {
    k :| i <= k <= j && Spans(a, u, i, k) && Spans(b, u, k, j);
  }

  lemma CatJoin(a: Regex, b: Regex, u: seq<Unit>, i: int, k: int, j: int)
    requires 0 <= i <= k <= j <= |u|
    requires Spans(a, u, i, k) && Spans(b, u, k, j)
    ensures Spans(Cat(a, b), u, i, j)
  {
  }

  /** `.+` matches from `i` only if the unit at `i` is not a line terminator, and then
      it matches that unit alone. */
  lemma PlusDot(u: seq<Unit>, i: int)
    requires 0 <= i <= |u|
    ensures (exists j :: i <= j <= |u| && Spans(Plus(Dot), u, i, j))
        <==> i < |u| && !IsLineTerminator(u[i])
  {
    if i < |u| && !IsLineTerminator(u[i]) {
      assert Spans(Dot, u, i, i + 1) && Spans(Star(Dot), u, i + 1, i + 1);
      assert Spans(Plus(Dot), u, i, i + 1);
    }
  }
}
