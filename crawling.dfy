/**
 * The crawlers' parsing of scraped pages into programme records, and the shape of the two crawl
 * loops.  The browser (navigation, selectors, waits) is a parameter: each page is given as the
 * strings it yields.
 */
module Crawling {
  import opened Wrappers
  import opened Http
  import opened JsString
  import opened Db

  const FamilyCenter := "가족센터"
  const Directions := "오시는길"
  const OpenToAll := "누구나 참여 가능"

  /** `list[k]`: the k-th scraped text, `undefined` past the end. */
  function Item(list: seq<string>, k: nat): (r: Option<string>)
    ensures r.Some? <==> k < |list|
  {
    if k < |list| then Some(list[k]) else None
  }

  /** `s.split(sep)` has a second part exactly when `sep` occurs in `s`. */
  lemma SplitHasSecondPart(s: string, sep: string)
    requires |sep| > 0
    ensures |Split(s, sep)| >= 2 <==> Contains(s, sep)
  {
  }

  /** The first part of `s.split(sep)` never contains `sep`. */
  lemma SplitFirstPartFree(s: string, sep: string)
    requires |sep| > 0
    ensures !Contains(Split(s, sep)[0], sep)
    ensures Split(s, sep)[0] <= s
  {
    match IndexOf(s, sep)
    case None =>
    case Some(k) =>
      forall j | OccursAt(s[..k], sep, j) ensures false {
        OccursInPrefix(s, sep, k, j);
      }
  }

  // ----- Korean-class programmes -----

  /**
   * The title: the part after the first ']' (up to the next one), trimmed, with the first
   * `&lt;`, `&gt;` and `&amp;` decoded.  No ']' at all makes the parse throw.
   */
  function KoTitle(titleText: string): (r: Option<string>)
    ensures r.None? <==> !Contains(titleText, "]")
  {
    SplitHasSecondPart(titleText, "]");
    var parts := Split(titleText, "]");
    if |parts| < 2 then None
    else Some(ReplaceFirst(ReplaceFirst(ReplaceFirst(Trim(parts[1]), "&lt;", "<"), "&gt;", ">"), "&amp;", "&"))
  }

  /**
   * The borough: between the first '[' and the first ']', trimmed, and cut before '가족센터'
   * when that occurs.  No '[' before the first ']' makes the parse throw.
   */
  function KoBorough(titleText: string): (r: Option<string>)
    ensures r.None? <==> !Contains(Split(titleText, "]")[0], "[")
    ensures r.Some? ==> !Contains(r.value, FamilyCenter)
  {
    var head := Split(titleText, "]")[0];
    SplitHasSecondPart(head, "[");
    var parts := Split(head, "[");
    if |parts| < 2 then None
    else
      var b := Trim(parts[1]);
      if Contains(b, FamilyCenter) then
        SplitFirstPartFree(b, FamilyCenter);
        Some(Split(b, FamilyCenter)[0])
      else Some(b)
  }

  /**
   * The location: the 9th body text trimmed; when it is missing or empty, the borough followed by
   * '가족센터'.  The result is never empty.
   */
  function KoLocation(bodyList: seq<string>, borough: string): (r: string)
    ensures r != ""
    ensures 8 < |bodyList| && Trim(bodyList[8]) != "" ==> r == Trim(bodyList[8])
    ensures (8 >= |bodyList| || Trim(bodyList[8]) == "") ==> r == borough + FamilyCenter
  {
    match Item(bodyList, 8)
    case None => borough + FamilyCenter
    case Some(text) =>
      var t := Trim(text);
      TrimResultTrimmed(text);
      // The comparison with ' ' in the source can never hold after trimming.
      assert t != " " by { assert IsWhitespace(' '); }
      if t == " " || t == "" then borough + FamilyCenter else t
  }

  function TrimItem(list: seq<string>, k: nat): Option<string> {
    match Item(list, k)
    case None => None
    case Some(s) => Some(Trim(s))
  }

  /**
   * One Korean-class detail page: missing (or empty) title text or image throws; so does a title
   * that does not parse.  Every such failure ends the crawl with InternalServerError.
   */
  function ParseKoRecord(titleText: Option<string>, image: Option<string>, bodyList: seq<string>, href: string)
    : (r: Result<KoProgram>)
    ensures r.Err? ==> r == Err(InternalServerError, 500)
    ensures r.Ok? <==>
      && titleText.Some? && titleText.value != "" && image.Some? && image.value != ""
      && KoTitle(titleText.value).Some? && KoBorough(titleText.value).Some?
    ensures r.Ok? ==>
      && r.value.title == KoTitle(titleText.value).value
      && r.value.borough == KoBorough(titleText.value).value
      && r.value.location == KoLocation(bodyList, r.value.borough)
      && r.value.applicationPeriod == TrimItem(bodyList, 0)
      && r.value.programPeriod == TrimItem(bodyList, 1)
      && r.value.image == image.value && r.value.url == href
  {
    if titleText.None? || titleText.value == "" || image.None? || image.value == "" then Fail(InternalServerError)
    else
      match (KoTitle(titleText.value), KoBorough(titleText.value))
      case (Some(title), Some(borough)) =>
        Ok(KoProgram(borough, title, image.value, TrimItem(bodyList, 0), TrimItem(bodyList, 1),
                     KoLocation(bodyList, borough), href))
      case _ => Fail(InternalServerError)
  }

  /**
   * What the browser yields for one Korean-class link: whether the container appeared within the
   * selector wait, whether the content then loaded, and the scraped texts.  The selector wait
   * throws when its time runs out, so a missing container is a failure like any other.
   */
  datatype KoPage = KoPage(
    container: bool, loaded: bool, titleText: Option<string>, image: Option<string>, bodyList: seq<string>)

  /** The records the Korean crawl collects from `hrefs` in order, or the first failure. */
  function KoRecords(hrefs: seq<string>, page: string -> KoPage): (r: Result<seq<KoProgram>>)
    ensures r.Err? ==> r == Err(InternalServerError, 500)
    ensures r.Ok? ==> |r.value| == |hrefs|
    decreases |hrefs|
  {
    if |hrefs| == 0 then Ok([])
    else
      var front := KoRecords(hrefs[..|hrefs| - 1], page);
      var href := hrefs[|hrefs| - 1];
      var p := page(href);
      if front.Err? then front
      else if !p.container || !p.loaded then Fail(InternalServerError)
      else match ParseKoRecord(p.titleText, p.image, p.bodyList, href)
        case Err(k, s) => Err(k, s)
        case Ok(rec) => Ok(front.value + [rec])
  }

  /** Visiting one more link: a failure, or exactly one more record. */
  lemma KoRecordsStep(hrefs: seq<string>, page: string -> KoPage, i: nat)
    requires i < |hrefs| && KoRecords(hrefs[..i], page).Ok?
    ensures var p := page(hrefs[i]);
      && (!p.container || !p.loaded ==> KoRecords(hrefs[..i + 1], page).Err?)
      && (p.container && p.loaded ==>
            var rec := ParseKoRecord(p.titleText, p.image, p.bodyList, hrefs[i]);
            && (rec.Err? ==> KoRecords(hrefs[..i + 1], page).Err?)
            && (rec.Ok? ==> KoRecords(hrefs[..i + 1], page) == Ok(KoRecords(hrefs[..i], page).value + [rec.value])))
  {
    assert hrefs[..i + 1][..i] == hrefs[..i];
  }

  /**
   * crawlerKoreanProgram: the links are visited in order.  No links throws a BadRequest inside the
   * try block, so the caller sees it, like every other failure, as InternalServerError.
   */
  method CrawlerKoreanProgram(hrefs: seq<string>, page: string -> KoPage) returns (r: Result<seq<KoProgram>>)
    ensures |hrefs| == 0 ==> r == Err(InternalServerError, 500)
    ensures |hrefs| > 0 ==> r == KoRecords(hrefs, page)
  {
    if |hrefs| == 0 {
      return Fail(InternalServerError);
    }
    var koData: seq<KoProgram> := [];
    var i := 0;
    while i < |hrefs|
      invariant 0 <= i <= |hrefs|
      invariant KoRecords(hrefs[..i], page) == Ok(koData)
    {
      var href := hrefs[i];
      var p := page(href);
      if !p.container || !p.loaded {
        assert KoRecords(hrefs[..i + 1], page).Err? by { KoRecordsStep(hrefs, page, i); }
        r := Fail(InternalServerError);
        FailureSticks(hrefs, page, i + 1);
        return;
      }
      var rec := ParseKoRecord(p.titleText, p.image, p.bodyList, href);
      if rec.Err? {
        assert KoRecords(hrefs[..i + 1], page).Err? by { KoRecordsStep(hrefs, page, i); }
        r := Fail(InternalServerError);
        FailureSticks(hrefs, page, i + 1);
        return;
      }
      assert KoRecords(hrefs[..i + 1], page) == Ok(koData + [rec.value]) by { KoRecordsStep(hrefs, page, i); }
      koData := koData + [rec.value];
      i := i + 1;
    }
    assert hrefs[..i] == hrefs;
    r := Ok(koData);
  }

  /** Once a prefix of the links has failed, every longer prefix fails too. */
  lemma {:induction false} FailureSticks(hrefs: seq<string>, page: string -> KoPage, n: nat)
    requires n <= |hrefs| && KoRecords(hrefs[..n], page).Err?
    ensures KoRecords(hrefs, page) == Fail(InternalServerError)
    decreases |hrefs| - n
  {
    if n < |hrefs| {
      assert hrefs[..n + 1][..n] == hrefs[..n];
      FailureSticks(hrefs, page, n + 1);
    } else {
      assert hrefs[..n] == hrefs;
    }
  }

  // ----- Government programmes -----

  predicate IsWordChar(c: char) {
    ('a' <= c <= 'z') || ('A' <= c <= 'Z') || ('0' <= c <= '9') || c == '_'
  }

  /** A precomposed Hangul syllable, `가-힣`. */
  predicate IsHangul(c: char) {
    '가' <= c <= '힣'
  }

  predicate Kept(c: char) {
    IsWordChar(c) || IsWhitespace(c) || IsHangul(c)
  }

  /** `s.replace(/[^\w\s가-힣]/g, ' ')`: every other character becomes a space. */
  function KeepTitleChars(s: string): (r: string)
    ensures |r| == |s|
    ensures forall k :: 0 <= k < |r| ==> r[k] == (if Kept(s[k]) then s[k] else ' ')
    ensures forall k :: 0 <= k < |r| ==> Kept(r[k])
  {
    seq(|s|, k requires 0 <= k < |s| => if Kept(s[k]) then s[k] else ' ')
  }

  /** Replacing the first '_' of a cleaned title by ': ' adds only ':' and ' '. */
  lemma FirstUnderscoreReplaced(kept: string)
    requires forall k :: 0 <= k < |kept| ==> Kept(kept[k])
    ensures var r := ReplaceFirst(kept, "_", ": ");
      forall k :: 0 <= k < |r| ==> Kept(r[k]) || r[k] == ':'
  {
    var r := ReplaceFirst(kept, "_", ": ");
    match IndexOf(kept, "_")
    case None =>
    case Some(j) =>
      assert r == kept[..j] + ": " + kept[j + 1..];
      forall k | 0 <= k < |r| ensures Kept(r[k]) || r[k] == ':' {
        if k < j {
          assert r[k] == kept[k];
        } else if k == j + 1 {
          assert r[k] == ' ' && IsWhitespace(' ');
        } else if k > j + 1 {
          assert r[k] == kept[k - 1];
        }
      }
  }

  /**
   * The government title: markup and punctuation become spaces, then the first '_' becomes ': '.
   * A missing or empty title gives none.
   */
  function GovTitle(title: Option<string>): (r: Option<string>)
    ensures r.Some? <==> title.Some? && title.value != ""
    ensures r.Some? ==> forall k :: 0 <= k < |r.value| ==> Kept(r.value[k]) || r.value[k] == ':'
  {
    if title.None? || title.value == "" then None
    else
      var kept := KeepTitleChars(title.value);
      var r := ReplaceFirst(kept, "_", ": ");
      FirstUnderscoreReplaced(kept);
      Some(r)
  }

  /** The government title keeps no tag brackets. */
  lemma GovTitleHasNoAngleBrackets(title: Option<string>)
    requires GovTitle(title).Some?
    ensures '<' !in GovTitle(title).value && '>' !in GovTitle(title).value
  {
    var r := GovTitle(title).value;
    forall k | 0 <= k < |r| ensures r[k] != '<' && r[k] != '>' {
      assert Kept(r[k]) || r[k] == ':';
    }
  }

  /** The borough: the part after the first '> ' (up to the next one) of the first body text. */
  function GovBorough(bodyList: seq<string>): (r: Option<string>)
    ensures r.Some? <==> 0 < |bodyList| && Contains(bodyList[0], "> ")
  {
    match Item(bodyList, 0)
    case None => None
    case Some(text) =>
      SplitHasSecondPart(text, "> ");
      var parts := Split(text, "> ");
      if |parts| < 2 then None else Some(parts[1])
  }

  /** The location: the 9th body text up to '오시는길'. */
  function GovLocation(bodyList: seq<string>): (r: Option<string>)
    ensures r.Some? <==> 8 < |bodyList|
    ensures r.Some? ==> !Contains(r.value, Directions) && r.value <= bodyList[8]
  {
    match Item(bodyList, 8)
    case None => None
    case Some(text) =>
      SplitFirstPartFree(text, Directions);
      Some(Split(text, Directions)[0])
  }

  /** The target: a lone '-' means open to everyone; any other 4th text is kept as is. */
  function GovTarget(bodyList: seq<string>): (r: Option<string>)
    ensures 3 < |bodyList| && bodyList[3] == "-" ==> r == Some(OpenToAll)
    ensures !(3 < |bodyList| && bodyList[3] == "-") ==> r == Item(bodyList, 3)
  {
    if Item(bodyList, 3) == Some("-") then Some(OpenToAll) else Item(bodyList, 3)
  }

  /** One government detail page as a record. */
  function GovRecord(title: Option<string>, image: Option<string>, bodyList: seq<string>, href: string)
    : (r: GovProgram)
    ensures r.url == href && r.image == image
    ensures r.title == GovTitle(title) && r.borough == GovBorough(bodyList)
    ensures r.target == GovTarget(bodyList) && r.location == GovLocation(bodyList)
    ensures r.programPeriod == Item(bodyList, 1) && r.applicationPeriod == Item(bodyList, 2)
    ensures r.personnel == Item(bodyList, 4) && r.programDetail == Item(bodyList, 6)
  {
    GovProgram(GovBorough(bodyList), GovTitle(title), image, href, Item(bodyList, 1), Item(bodyList, 2),
               GovTarget(bodyList), Item(bodyList, 4), Item(bodyList, 6), GovLocation(bodyList))
  }

  /** The result pages the government crawl visits. */
  const FirstPage := 1
  const PageLimit := 5

  /** The records of result pages `lo` up to (not including) `hi`, in page order, or the first failure. */
  function GovPages(visit: int -> Result<seq<GovProgram>>, lo: int, hi: int): (r: Result<seq<GovProgram>>)
    ensures r.Err? ==> r == Err(InternalServerError, 500)
    decreases hi - lo
  {
    if lo >= hi then Ok([])
    else
      var front := GovPages(visit, lo, hi - 1);
      if front.Err? || visit(hi - 1).Err? then Fail(InternalServerError)
      else Ok(front.value + visit(hi - 1).value)
  }

  /**
   * crawlerGovernmentProgram: result pages cpage = 1..4 are visited in order (`visit` gives the
   * records a page yields); any failure ends the crawl with InternalServerError.
   */
  method CrawlerGovernmentProgram(visit: int -> Result<seq<GovProgram>>) returns (r: Result<seq<GovProgram>>)
    ensures r == GovPages(visit, FirstPage, PageLimit)
  {
    var govData: seq<GovProgram> := [];
    var i := FirstPage;
    while i < PageLimit
      invariant FirstPage <= i <= PageLimit
      invariant GovPages(visit, FirstPage, i) == Ok(govData)
    {
      var records := visit(i);
      if records.Err? {
        GovFailureSticks(visit, i + 1);
        return Fail(InternalServerError);
      }
      govData := govData + records.value;
      i := i + 1;
    }
    r := Ok(govData);
  }

  lemma {:induction false} GovFailureSticks(visit: int -> Result<seq<GovProgram>>, n: int)
    requires FirstPage < n <= PageLimit && GovPages(visit, FirstPage, n).Err?
    ensures GovPages(visit, FirstPage, PageLimit).Err?
    decreases PageLimit - n
  {
    if n < PageLimit {
      GovFailureSticks(visit, n + 1);
    }
  }

  /** Exactly the pages 1, 2, 3 and 4 are read. */
  lemma GovPagesAreOneToFour(visit: int -> Result<seq<GovProgram>>)
    requires forall p :: FirstPage <= p < PageLimit ==> visit(p).Ok?
    ensures GovPages(visit, FirstPage, PageLimit)
         == Ok(visit(1).value + visit(2).value + visit(3).value + visit(4).value)
  {
    assert GovPages(visit, 1, 1) == Ok([]);
    assert [] + visit(1).value == visit(1).value;
    assert GovPages(visit, 1, 2) == Ok(visit(1).value);
    assert GovPages(visit, 1, 3) == Ok(visit(1).value + visit(2).value);
    assert GovPages(visit, 1, 4) == Ok(visit(1).value + visit(2).value + visit(3).value);
  }
}
