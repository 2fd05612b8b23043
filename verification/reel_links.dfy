/** The reel-link patterns of the two revisions, each as the regular expression the
    source writes and as a direct "the body contains a link of this shape" check,
    with a proof that the two agree on every subject. */
module ReelLinks {
  import opened Regex

  // ---- the patterns as written ----

  const Scheme: Regex := Lit("https://")
  /** `(www.)`: the `.` is unescaped, so it stands for any one unit. */
  const WwwDot: Regex := Cat(Lit("www"), Dot)
  /** `\/.+` */
  const LinkEnd: Regex := Cat(Lit("/"), Plus(Dot))
  const CurrentPlatforms: Regex := Alt(Lit("facebook"), Lit("instagram"))
  const CurrentKinds: Regex := Alt(Lit("reel"), Lit("share"))
  /** `com\/(reel|share)\/.+` */
  const CurrentAfterDot: Regex := Cat(Lit("com/"), Cat(CurrentKinds, LinkEnd))
  /** `(facebook|instagram).com\/(reel|share)\/.+` */
  const CurrentCore: Regex := Cat(CurrentPlatforms, Cat(Dot, CurrentAfterDot))
  /** `/(https:\/\/)?(www.)?(facebook|instagram).com\/(reel|share)\/.+/` */
  const CurrentPattern: Regex := Cat(Opt(Scheme), Cat(Opt(WwwDot), CurrentCore))

  /** `facebook.com\/reel\/.+` */
  const LegacyCore: Regex := Cat(Lit("facebook"), Cat(Dot, Cat(Lit("com/reel/"), Plus(Dot))))
  /** `/(https:\/\/)?(www.)*facebook.com\/reel\/.+/` */
  const LegacyPattern: Regex := Cat(Opt(Scheme), Cat(Star(WwwDot), LegacyCore))

  // ---- the link shapes ----

  /** At unit index `p`: `platform`, one unit that is not a line terminator, `com/`,
      `kind`, `/`, and one more unit that is not a line terminator. */
  predicate LinkShapeAt(u: seq<Unit>, p: int, platform: string, kind: string) {
    var dot := p + |platform|;
    var slash := dot + 5 + |kind|;
    && UnitsAt(u, p, platform)
    && dot < |u| && !IsLineTerminator(u[dot])
    && UnitsAt(u, dot + 1, "com/")
    && UnitsAt(u, dot + 5, kind)
    && UnitsAt(u, slash, "/")
    && slash + 1 < |u| && !IsLineTerminator(u[slash + 1])
  }

  predicate CurrentLinkAt(u: seq<Unit>, p: int) {
    || LinkShapeAt(u, p, "facebook", "reel")
    || LinkShapeAt(u, p, "facebook", "share")
    || LinkShapeAt(u, p, "instagram", "reel")
    || LinkShapeAt(u, p, "instagram", "share")
  }

  predicate LegacyLinkAt(u: seq<Unit>, p: int) {
    LinkShapeAt(u, p, "facebook", "reel")
  }

  /** The current revision's `regex.test(body)`. */
  predicate IsCurrentReelLink(body: string) {
    var u := Utf16(body);
    exists p | 0 <= p < |u| :: CurrentLinkAt(u, p)
  }

  /** The older revision's `regex.test(body)`. */
  predicate IsLegacyReelLink(body: string) {
    var u := Utf16(body);
    exists p | 0 <= p < |u| :: LegacyLinkAt(u, p)
  }

  // ---- agreement with the patterns ----

  lemma CurrentCoreSound(u: seq<Unit>, p: int, j: int)
    requires 0 <= p <= j <= |u| && Spans(CurrentCore, u, p, j)
    ensures CurrentLinkAt(u, p)
  {
    var k1 := CatSplit(CurrentPlatforms, Cat(Dot, CurrentAfterDot), u, p, j);
    var k2 := CatSplit(Dot, CurrentAfterDot, u, k1, j);
    var k3 := CatSplit(Lit("com/"), Cat(CurrentKinds, LinkEnd), u, k2, j);
    var k4 := CatSplit(CurrentKinds, LinkEnd, u, k3, j);
    var k5 := CatSplit(Lit("/"), Plus(Dot), u, k4, j);
    PlusDot(u, k5);
    var platform := if Spans(Lit("facebook"), u, p, k1) then "facebook" else "instagram";
    var kind := if Spans(Lit("reel"), u, k3, k4) then "reel" else "share";
    assert UnitsAt(u, p, platform) && k1 == p + |platform|;
    assert UnitsAt(u, k3, kind) && k4 == k3 + |kind|;
    assert LinkShapeAt(u, p, platform, kind);
  }

  /** The shape with the given platform and kind alternatives spans the core pattern. */
  lemma CurrentShapeComplete(u: seq<Unit>, p: int, platform: string, kind: string) returns (j: int)
    requires LinkShapeAt(u, p, platform, kind)
    requires platform == "facebook" || platform == "instagram"
    requires kind == "reel" || kind == "share"
    ensures p <= j <= |u| && Spans(CurrentCore, u, p, j)
  {
    var dot := p + |platform|;
    var kindAt := dot + 5;
    var slash := kindAt + |kind|;
    j := slash + 2;
    PlusDot(u, slash + 1);
    var e :| slash + 1 <= e <= |u| && Spans(Plus(Dot), u, slash + 1, e);
    j := e;
    CatJoin(Lit("/"), Plus(Dot), u, slash, slash + 1, j);
    assert Spans(CurrentKinds, u, kindAt, slash);
    CatJoin(CurrentKinds, LinkEnd, u, kindAt, slash, j);
    CatJoin(Lit("com/"), Cat(CurrentKinds, LinkEnd), u, dot + 1, kindAt, j);
    assert Spans(Dot, u, dot, dot + 1);
    CatJoin(Dot, CurrentAfterDot, u, dot, dot + 1, j);
    assert Spans(CurrentPlatforms, u, p, dot);
    CatJoin(CurrentPlatforms, Cat(Dot, CurrentAfterDot), u, p, dot, j);
  }

  /** The current pattern, optional prefixes and all, accepts exactly the bodies that
      contain a current-shape link. */
  lemma CurrentPatternMeaning(body: string)
    ensures IsCurrentReelLink(body) <==> Test(CurrentPattern, Utf16(body))
  {
    var u := Utf16(body);
    if Test(CurrentPattern, u) {
      var i, j :| 0 <= i <= j <= |u| && Spans(CurrentPattern, u, i, j);
      var k1 := CatSplit(Opt(Scheme), Cat(Opt(WwwDot), CurrentCore), u, i, j);
      var k2 := CatSplit(Opt(WwwDot), CurrentCore, u, k1, j);
      CurrentCoreSound(u, k2, j);
      assert 0 <= k2 < |u| && CurrentLinkAt(u, k2);
    }
    if IsCurrentReelLink(body) {
      var p :| 0 <= p < |u| && CurrentLinkAt(u, p);
      var j;
      if LinkShapeAt(u, p, "facebook", "reel") {
        j := CurrentShapeComplete(u, p, "facebook", "reel");
      } else if LinkShapeAt(u, p, "facebook", "share") {
        j := CurrentShapeComplete(u, p, "facebook", "share");
      } else if LinkShapeAt(u, p, "instagram", "reel") {
        j := CurrentShapeComplete(u, p, "instagram", "reel");
      } else {
        j := CurrentShapeComplete(u, p, "instagram", "share");
      }
      assert Spans(Opt(WwwDot), u, p, p);
      CatJoin(Opt(WwwDot), CurrentCore, u, p, p, j);
      assert Spans(Opt(Scheme), u, p, p);
      CatJoin(Opt(Scheme), Cat(Opt(WwwDot), CurrentCore), u, p, p, j);
      assert Spans(CurrentPattern, u, p, j);
    }
  }

  lemma LegacyCoreSound(u: seq<Unit>, p: int, j: int)
    requires 0 <= p <= j <= |u| && Spans(LegacyCore, u, p, j)
    ensures LegacyLinkAt(u, p)
  {
    var k1 := CatSplit(Lit("facebook"), Cat(Dot, Cat(Lit("com/reel/"), Plus(Dot))), u, p, j);
    var k2 := CatSplit(Dot, Cat(Lit("com/reel/"), Plus(Dot)), u, k1, j);
    var k3 := CatSplit(Lit("com/reel/"), Plus(Dot), u, k2, j);
    PlusDot(u, k3);
    assert "com/reel/" == "com/" + "reel" + "/";
    UnitsAtConcat(u, k2, "com/" + "reel", "/");
    UnitsAtConcat(u, k2, "com/", "reel");
  }

  lemma LegacyShapeComplete(u: seq<Unit>, p: int) returns (j: int)
    requires LegacyLinkAt(u, p)
    ensures p <= j <= |u| && Spans(LegacyCore, u, p, j)
  {
    var dot := p + 8;
    PlusDot(u, dot + 10);
    j :| dot + 10 <= j <= |u| && Spans(Plus(Dot), u, dot + 10, j);
    assert "com/reel/" == "com/" + "reel" + "/";
    UnitsAtConcat(u, dot + 1, "com/", "reel");
    UnitsAtConcat(u, dot + 1, "com/" + "reel", "/");
    CatJoin(Lit("com/reel/"), Plus(Dot), u, dot + 1, dot + 10, j);
    assert Spans(Dot, u, dot, dot + 1);
    CatJoin(Dot, Cat(Lit("com/reel/"), Plus(Dot)), u, dot, dot + 1, j);
    CatJoin(Lit("facebook"), Cat(Dot, Cat(Lit("com/reel/"), Plus(Dot))), u, p, dot, j);
  }

  /** The older pattern accepts exactly the bodies that contain a Facebook reel link. */
  lemma LegacyPatternMeaning(body: string)
    ensures IsLegacyReelLink(body) <==> Test(LegacyPattern, Utf16(body))
  {
    var u := Utf16(body);
    if Test(LegacyPattern, u) {
      var i, j :| 0 <= i <= j <= |u| && Spans(LegacyPattern, u, i, j);
      var k1 := CatSplit(Opt(Scheme), Cat(Star(WwwDot), LegacyCore), u, i, j);
      var k2 := CatSplit(Star(WwwDot), LegacyCore, u, k1, j);
      LegacyCoreSound(u, k2, j);
      assert 0 <= k2 < |u| && LegacyLinkAt(u, k2);
    }
    if IsLegacyReelLink(body) {
      var p :| 0 <= p < |u| && LegacyLinkAt(u, p);
      var j := LegacyShapeComplete(u, p);
      assert Spans(Star(WwwDot), u, p, p);
      CatJoin(Star(WwwDot), LegacyCore, u, p, p, j);
      assert Spans(Opt(Scheme), u, p, p);
      CatJoin(Opt(Scheme), Cat(Star(WwwDot), LegacyCore), u, p, p, j);
      assert Spans(LegacyPattern, u, p, j);
    }
  }

  /** Every body the older revision takes for a reel, the current one does too. */
  lemma LegacyLinksAreCurrentLinks(body: string)
    ensures IsLegacyReelLink(body) ==> IsCurrentReelLink(body)
  {
    var u := Utf16(body);
    if IsLegacyReelLink(body) {
      var p :| 0 <= p < |u| && LegacyLinkAt(u, p);
      assert CurrentLinkAt(u, p);
    }
  }

  // ---- links inside arbitrary text ----

  /** The link `platform` `d` `com/` `kind` `/` `e` anywhere in a body makes it a
      current-revision reel link, whatever surrounds it. */
  lemma EmbeddedCurrentLink(pre: string, platform: string, d: char, kind: string, e: char, post: string)
    requires platform == "facebook" || platform == "instagram"
    requires kind == "reel" || kind == "share"
    requires d as int < 0x1_0000 && !IsLineTerminator(d as int)
    requires !IsLineTerminator(e as int)
    ensures IsCurrentReelLink(pre + platform + [d] + "com/" + kind + "/" + [e] + post)
  {
    var p := EmbeddedShape(pre, platform, d, kind, e, post);
    var u := Utf16(pre + platform + [d] + "com/" + kind + "/" + [e] + post);
    assert CurrentLinkAt(u, p);
  }

  /** The same for the older revision, whose only platform and kind are `facebook`
      and `reel`. */
  lemma EmbeddedLegacyLink(pre: string, d: char, e: char, post: string)
    requires d as int < 0x1_0000 && !IsLineTerminator(d as int)
    requires !IsLineTerminator(e as int)
    ensures IsLegacyReelLink(pre + "facebook" + [d] + "com/" + "reel" + "/" + [e] + post)
  {
    var p := EmbeddedShape(pre, "facebook", d, "reel", e, post);
    var u := Utf16(pre + "facebook" + [d] + "com/" + "reel" + "/" + [e] + post);
    assert LegacyLinkAt(u, p);
  }

  /** `platform` `d` `com/` `kind` `/` at `p`, then a unit that is not a line terminator. */
  lemma ShapeFromUnits(u: seq<Unit>, p: int, platform: string, d: char, kind: string)
    requires UnitsAt(u, p, platform + [d] + "com/" + kind + "/")
    requires !IsLineTerminator(d as int)
    requires var e := p + |platform| + 6 + |kind|; e < |u| && !IsLineTerminator(u[e])
    ensures LinkShapeAt(u, p, platform, kind)
  {
    UnitsAtConcat(u, p, platform + [d] + "com/" + kind, "/");
    UnitsAtConcat(u, p, platform + [d] + "com/", kind);
    UnitsAtConcat(u, p, platform + [d], "com/");
    UnitsAtConcat(u, p, platform, [d]);
    assert u[p + |platform| + 0] == [d][0] as int;
  }

  lemma EmbeddedShape(pre: string, platform: string, d: char, kind: string, e: char, post: string)
    returns (p: int)
    requires AllBmp(platform) && AllBmp(kind)
    requires d as int < 0x1_0000 && !IsLineTerminator(d as int)
    requires !IsLineTerminator(e as int)
    ensures var u := Utf16(pre + platform + [d] + "com/" + kind + "/" + [e] + post);
      0 <= p < |u| && LinkShapeAt(u, p, platform, kind)
  {
    var link := platform + [d] + "com/" + kind + "/";
    var rest := [e] + post;
    var body := pre + platform + [d] + "com/" + kind + "/" + [e] + post;
    assert body == pre + link + rest;
    assert AllBmp(link);
    UnitsAtEmbedded(pre, link, rest);
    p := |Utf16(pre)|;
    var u := Utf16(body);
    assert u == Utf16(pre) + Utf16(link) + Utf16(rest) by {
      Utf16Concat(pre + link, rest);
      Utf16Concat(pre, link);
    }
    assert Utf16(rest) == CharUnits(e) + Utf16(post);
    assert u[p + |link|] == CharUnits(e)[0];
    ShapeFromUnits(u, p, platform, d, kind);
  }

  // ---- examples ----

  lemma InstagramReelExample(body: string)
    requires body == "https://www.instagram.com/reel/abc123"
    ensures IsCurrentReelLink(body)
  {
    assert body == "https://www." + "instagram" + ['.'] + "com/" + "reel" + "/" + ['a'] + "bc123";
    EmbeddedCurrentLink("https://www.", "instagram", '.', "reel", 'a', "bc123");
  }

  lemma AllBmpConcat(a: string, b: string)
    requires AllBmp(a) && AllBmp(b)
    ensures AllBmp(a + b)
  {
  }

  /** What a link shape needs: room for all its parts, and its first letters. */
  lemma ShapeNeeds(u: seq<Unit>, p: int, platform: string, kind: string)
    requires |platform| > 0 && |kind| > 0
    ensures LinkShapeAt(u, p, platform, kind) ==>
      && p + |platform| + |kind| + 7 <= |u|
      && u[p] == platform[0] as int
      && u[p + |platform| + 5] == kind[0] as int
  {
    if LinkShapeAt(u, p, platform, kind) {
      assert u[p + 0] == platform[0] as int;
      assert u[p + |platform| + 5 + 0] == kind[0] as int;
    }
  }

  /** No shape fits in the units when every place it could start has the wrong letter. */
  lemma NoShapeFits(u: seq<Unit>, platform: string, kind: string)
    requires |platform| > 0 && |kind| > 0
    requires forall p :: 0 <= p && p + |platform| + |kind| + 7 <= |u| ==>
      u[p] != platform[0] as int || u[p + |platform| + 5] != kind[0] as int
    ensures forall p :: 0 <= p < |u| ==> !LinkShapeAt(u, p, platform, kind)
  {
    forall p | 0 <= p < |u| ensures !LinkShapeAt(u, p, platform, kind) {
      ShapeNeeds(u, p, platform, kind);
    }
  }

  lemma FacebookShareExample(body: string)
    requires body == "facebook.com/share/xyz"
    ensures IsCurrentReelLink(body)
  {
    assert body == "" + "facebook" + ['.'] + "com/" + "share" + "/" + ['x'] + "yz";
    EmbeddedCurrentLink("", "facebook", '.', "share", 'x', "yz");
  }

  lemma FacebookShareIsNotLegacyExample(body: string)
    requires body == "facebook.com/share/xyz"
    ensures !IsLegacyReelLink(body)
  {
    var a, b := "facebook.com", "/share/xyz";
    assert AllBmp(a) && AllBmp(b);
    AllBmpConcat(a, b);
    assert body == a + b;
    var u := Utf16(body);
    assert |u| == 22;
    assert u[1] == 'a' as int && u[2] == 'c' as int && u[3] == 'e' as int && u[13] == 's' as int;
    NoShapeFits(u, "facebook", "reel");
  }

  lemma InstagramPostExample(body: string)
    requires body == "instagram.com/p/abc"
    ensures !IsCurrentReelLink(body)
  {
    var a, b := "instagram", ".com/p/abc";
    assert AllBmp(a) && AllBmp(b);
    AllBmpConcat(a, b);
    assert body == a + b;
    var u := Utf16(body);
    assert |u| == 19 && u[0] == 'i' as int;
    NoShapeFits(u, "facebook", "reel");
    NoShapeFits(u, "facebook", "share");
    NoShapeFits(u, "instagram", "reel");
    NoShapeFits(u, "instagram", "share");
  }

  lemma ShortInstagramReelExample(body: string)
    requires body == "instagram.com/reel/abc"
    ensures IsCurrentReelLink(body)
  {
    assert body == "" + "instagram" + ['.'] + "com/" + "reel" + "/" + ['a'] + "bc";
    EmbeddedCurrentLink("", "instagram", '.', "reel", 'a', "bc");
  }

  lemma InstagramReelIsNotLegacyExample(body: string)
    requires body == "instagram.com/reel/abc"
    ensures !IsLegacyReelLink(body)
  {
    var a, b := "instagram.com", "/reel/abc";
    assert AllBmp(a) && AllBmp(b);
    AllBmpConcat(a, b);
    assert body == a + b;
    var u := Utf16(body);
    assert |u| == 22;
    assert u[0] == 'i' as int && u[1] == 'n' as int && u[2] == 's' as int && u[3] == 't' as int;
    NoShapeFits(u, "facebook", "reel");
  }

  lemma FacebookReelExample(body: string)
    requires body == "https://www.facebook.com/reel/123"
    ensures IsCurrentReelLink(body) && IsLegacyReelLink(body)
  {
    assert body == "https://www." + "facebook" + ['.'] + "com/" + "reel" + "/" + ['1'] + "23";
    EmbeddedLegacyLink("https://www.", '.', '1', "23");
    LegacyLinksAreCurrentLinks(body);
  }

  lemma EmptyBodyExample()
    ensures !IsCurrentReelLink("") && !IsLegacyReelLink("")
  {
  }
}
