/**
 * The string logic around the OCR and AI calls: the preconditions checked before any external
 * call, joining OCR words into lines, stripping code fences from an AI reply, validating the
 * reply's two text arrays, sanitising a problem before it is sent, and the catch-all of
 * `solution`.  The OCR, translation and chat services are parameters.
 */
module Ocr {
  import opened Wrappers
  import opened Http
  import opened JsString
  import opened Js
  import opened Db

  // ----- Before any external call -----

  /** The five settings `ocr` needs. */
  datatype OcrConfig = OcrConfig(
    apiKey: Option<string>, ocrEndpoint: Option<string>, translateEndpoint: Option<string>,
    openAiEndpoint: Option<string>, openAiApiKey: Option<string>)

  predicate Set(v: Option<string>) {
    v.Some? && v.value != ""
  }

  predicate ConfigComplete(c: OcrConfig) {
    Set(c.apiKey) && Set(c.ocrEndpoint) && Set(c.translateEndpoint) && Set(c.openAiEndpoint) && Set(c.openAiApiKey)
  }

  /** `ocr`: a missing setting, then a missing or empty file list, are BadRequest. */
  function OcrPreflight(config: OcrConfig, files: Option<seq<string>>): (r: Result<()>)
    ensures r.Ok? <==> ConfigComplete(config) && files.Some? && |files.value| > 0
    ensures r.Err? ==> r == Err(BadRequest, 400)
  {
    if !ConfigComplete(config) then Fail(BadRequest)
    else if files.None? || |files.value| == 0 then Fail(BadRequest)
    else Ok(())
  }

  /** The three settings `ocrAndTranslateByAI` checks. */
  datatype AiConfig = AiConfig(endpoint: Option<string>, apiKey: Option<string>, deployment: Option<string>)

  ghost predicate LiveUser(users: seq<User>, userId: int) {
    exists i :: 0 <= i < |users| && users[i].id == userId && !users[i].isDeleted
  }

  /**
   * `ocrAndTranslateByAI`, in order: a missing setting throws a plain error; an unknown or deleted
   * user is NotFound; a missing or empty file list is BadRequest.
   */
  function AiPreflight(config: AiConfig, users: seq<User>, userId: int, files: Option<seq<string>>): (r: Result<()>)
    ensures !(Set(config.endpoint) && Set(config.apiKey) && Set(config.deployment)) ==> r == Err(Plain, 500)
    ensures Set(config.endpoint) && Set(config.apiKey) && Set(config.deployment) ==>
      && (!LiveUser(users, userId) ==> r == Err(NotFound, 404))
      && (LiveUser(users, userId) ==> (r.Ok? <==> files.Some? && |files.value| > 0))
    ensures r.Err? ==> r.kind in {Plain, NotFound, BadRequest}
  {
    if !(Set(config.endpoint) && Set(config.apiKey) && Set(config.deployment)) then Fail(Plain)
    else match Query.FindFirst(users, (u: User) => u.id == userId && !u.isDeleted)
      case None => Fail(NotFound)
      case Some(i) =>
        assert users[i].id == userId && !users[i].isDeleted;
        if files.None? || |files.value| == 0 then Fail(BadRequest) else Ok(())
  }

  // ----- OCR lines -----

  /** An OCR line: its words joined by single spaces. */
  function OcrLine(words: seq<string>): string {
    Join(words, " ")
  }

  /** Words without spaces can be read back from their line. */
  lemma OcrLineSplitsBack(words: seq<string>)
    requires |words| >= 1 && forall k :: 0 <= k < |words| ==> ' ' !in words[k]
    ensures Split(OcrLine(words), " ") == words
  {
    SplitJoin(words, ' ');
  }

  /** The lines of all regions, in order: one per OCR line. */
  function LinesOf(regions: seq<seq<seq<string>>>): (r: seq<string>)
    ensures |r| == LineCount(regions)
  {
    if |regions| == 0 then []
    else LinesOf(regions[..|regions| - 1]) + RegionLines(regions[|regions| - 1], |regions[|regions| - 1]|)
  }

  function LineCount(regions: seq<seq<seq<string>>>): nat {
    if |regions| == 0 then 0 else LineCount(regions[..|regions| - 1]) + |regions[|regions| - 1]|
  }

  /** The first `n` lines of one region. */
  function RegionLines(region: seq<seq<string>>, n: nat): (r: seq<string>)
    requires n <= |region|
    ensures |r| == n && forall k :: 0 <= k < n ==> r[k] == OcrLine(region[k])
  {
    seq(n, k requires 0 <= k < n => OcrLine(region[k]))
  }

  /**
   * One image's OCR result: no regions is BadRequest; otherwise every line of every region, in
   * order, becomes one text.
   */
  method CollectLines(regions: seq<seq<seq<string>>>) returns (r: Result<seq<string>>)
    ensures |regions| == 0 ==> r == Err(BadRequest, 400)
    ensures |regions| > 0 ==> r == Ok(LinesOf(regions))
  {
    if |regions| == 0 {
      return Fail(BadRequest);
    }
    var ocrResults: seq<string> := [];
    var i := 0;
    while i < |regions|
      invariant 0 <= i <= |regions|
      invariant ocrResults == LinesOf(regions[..i])
    {
      var region := regions[i];
      var j := 0;
      while j < |region|
        invariant 0 <= j <= |region|
        invariant ocrResults == LinesOf(regions[..i]) + RegionLines(region, j)
      {
        ocrResults := ocrResults + [OcrLine(region[j])];
        j := j + 1;
      }
      assert regions[..i + 1][..i] == regions[..i];
      i := i + 1;
    }
    assert regions[..i] == regions;
    r := Ok(ocrResults);
  }

  // ----- Code fences -----

  /**
   * `s.replace(/<fence>\n?/g, '')`: every occurrence of the fence, leftmost first, is removed
   * together with one newline right after it.
   */
  function RemoveFence(s: string, fence: string): (r: string)
    requires |fence| > 0
    ensures |r| <= |s|
    decreases |s|
  {
    match IndexOf(s, fence)
    case None => s
    case Some(k) =>
      var rest := s[k + |fence|..];
      var after := if |rest| > 0 && rest[0] == '\n' then rest[1..] else rest;
      s[..k] + RemoveFence(after, fence)
  }

  /** The cleanup of the AI reply: '```json' fences, then '```' fences, then trim. */
  function StripFences(content: string): (r: string)
    ensures Trimmed(r)
  {
    TrimResultTrimmed(RemoveFence(RemoveFence(content, "```json"), "```"));
    Trim(RemoveFence(RemoveFence(content, "```json"), "```"))
  }

  /** A reply with no backtick at all is only trimmed. */
  lemma NoFenceOnlyTrimmed(content: string)
    requires '`' !in content
    ensures StripFences(content) == Trim(content)
  {
    AbsentFirstChar(content, "```json");
    AbsentFirstChar(content, "```");
  }

  /** The opening '```json' and its newline go; nothing else matches the first pattern. */
  lemma OpeningFenceRemoved(body: string)
    requires '`' !in body
    ensures RemoveFence("```json\n" + body + "\n```", "```json") == body + "\n```"
  {
    var s := "```json\n" + body + "\n```";
    assert OccursAt(s, "```json", 0) by { assert s[..7] == "```json"; }
    assert IndexOf(s, "```json") == Some(0);
    var t := body + "\n```";
    assert s[7..][1..] == t;
    forall j | 0 <= j ensures !OccursAt(t, "```json", j) {
      if j < |body| { assert t[j] == body[j]; }
      if j + 7 <= |t| { assert t[j..j + 7][0] == t[j]; }
    }
    assert IndexOf(t, "```json").None?;
  }

  /** The closing '```' goes, leaving the newline before it. */
  lemma ClosingFenceRemoved(body: string)
    requires '`' !in body
    ensures RemoveFence(body + "\n```", "```") == body + "\n"
  {
    var t := body + "\n```";
    assert OccursAt(t, "```", |body| + 1) by { assert t[|body| + 1..|body| + 4] == "```"; }
    forall j | 0 <= j < |body| + 1 ensures !OccursAt(t, "```", j) {
      if j < |body| { assert t[j] == body[j]; }
      if j + 3 <= |t| { assert t[j..j + 3][0] == t[j]; }
    }
    assert IndexOf(t, "```") == Some(|body| + 1);
    assert t[..|body| + 1] == body + "\n";
    assert t[|body| + 4..] == "";
    assert IndexOf("", "```").None?;
  }

  /** A trimmed body without backticks, wrapped in a json code block, comes back unchanged. */
  lemma FencedJsonUnwrapped(body: string)
    requires '`' !in body && Trimmed(body)
    ensures StripFences("```json\n" + body + "\n```") == body
  {
    OpeningFenceRemoved(body);
    ClosingFenceRemoved(body);
    assert IsWhitespace('\n');
    TrimAppendWhitespace(body, "\n");
  }

  // ----- The AI reply -----

  /** `v.length`: arrays and strings have one; a number or boolean has none. */
  function JsLength(v: Value): Value {
    match v
    case Arr(items) => Num(|items| as real)
    case Str(s) => Num(|s| as real)
    case Obj(_) => Get(v, "length")
    case _ => Undefined
  }

  /** `...v`: the elements of an array, the characters of a string; anything else throws. */
  function Spread(v: Value): (r: Option<seq<Value>>)
    ensures r.Some? <==> v.Arr? || v.Str?
    ensures r.Some? ==> JsLength(v) == Num(|r.value| as real)
  {
    match v
    case Arr(items) => Some(items)
    case Str(s) => Some(seq(|s|, k requires 0 <= k < |s| => Str([s[k]])))
    case _ => None
  }

  /**
   * The checks on one parsed AI reply: a missing (falsy) `originalText` or `translatedText` is
   * BadRequest, so are lengths that differ; otherwise both are appended in full.  A reply that is
   * null, or whose texts cannot be spread, throws a plain error.
   */
  function AppendAiResult(originalText: seq<Value>, translatedText: seq<Value>, reply: Value)
    : (r: Result<(seq<Value>, seq<Value>)>)
    ensures var o := Get(reply, "originalText"); var t := Get(reply, "translatedText");
      && (r.Err? && r.kind == BadRequest <==>
            !(reply.Null? || reply.Undefined?) && (!Truthy(o) || !Truthy(t) || JsLength(o) != JsLength(t)))
      && (r.Ok? ==>
            && Spread(o).Some? && Spread(t).Some?
            && r.value.0 == originalText + Spread(o).value
            && r.value.1 == translatedText + Spread(t).value)
    ensures r.Err? ==> r.kind == BadRequest || r.kind == Plain
    ensures r.Ok? && |originalText| == |translatedText| ==> |r.value.0| == |r.value.1|
  {
    if reply.Null? || reply.Undefined? then Fail(Plain)
    else
      var o := Get(reply, "originalText");
      var t := Get(reply, "translatedText");
      if !Truthy(o) || !Truthy(t) then Fail(BadRequest)
      else if JsLength(o) != JsLength(t) then Fail(BadRequest)
      else match (Spread(o), Spread(t))
        case (Some(a), Some(b)) => Ok((originalText + a, translatedText + b))
        case _ => Fail(Plain)
  }

  // ----- Sanitising -----

  /** The replacements, in the order they are applied; each replaces every occurrence. */
  const Rules: seq<(string, string)> := [
    ("제모", "모발 제거"), ("hair removal", "모발 제거"), ("removal", "제거"), ("정벌", "정복"),
    ("대결", "대립"), ("conquest", "정복"), ("혁명", "개혁"), ("독립", "자립"), ("반대", "거부"),
    ("revolution", "개혁"), ("independence", "자립"), ("반일", "대외 관계"), ("민족", "국민"),
    ("통합", "연합")]

  /** The first `n` rules applied to `line`, in order. */
  function ApplyRules(line: string, n: nat): string
    requires n <= |Rules|
  {
    if n == 0 then line
    else
      assert |Rules[n - 1].0| > 0;
      ReplaceAll(ApplyRules(line, n - 1), Rules[n - 1].0, Rules[n - 1].1)
  }

  function SanitizeLine(line: string): string {
    ApplyRules(line, |Rules|)
  }

  /** sanitizeText: each line on its own, so the number of lines is kept. */
  function SanitizeText(text: seq<string>): (r: seq<string>)
    ensures |r| == |text| && forall k :: 0 <= k < |r| ==> r[k] == SanitizeLine(text[k])
  {
    seq(|text|, k requires 0 <= k < |text| => SanitizeLine(text[k]))
  }

  /** Once a rule has removed a word, the later rules (all Korean replacements) never bring it back. */
  lemma {:induction false} StaysAbsent(line: string, from: nat, n: nat, p: string)
    requires from <= n <= |Rules| && |p| > 0
    requires forall m :: from <= m < |Rules| ==> SharesNoChar(p, Rules[m].1)
    requires !Contains(ApplyRules(line, from), p)
    ensures !Contains(ApplyRules(line, n), p)
    decreases n - from
  {
    if from < n {
      assert |Rules[from].0| > 0 && |Rules[from].1| > 0;
      ReplaceAllKeepsAbsent(ApplyRules(line, from), Rules[from].0, Rules[from].1, p);
      StaysAbsent(line, from + 1, n, p);
    }
  }

  /** A lower-case ASCII word shares no character with any replacement text (all Hangul and spaces). */
  lemma AsciiWordMissesReplacements(p: string, m: nat)
    requires forall k :: 0 <= k < |p| ==> 'a' <= p[k] <= 'z'
    requires m < |Rules|
    ensures SharesNoChar(p, Rules[m].1)
  {
    var rep := Rules[m].1;
    assert forall j :: 0 <= j < |rep| ==> rep[j] == ' ' || rep[j] >= '가';
  }

  /** A rule that removes `p` and is followed only by Korean replacements leaves no `p` at the end. */
  lemma RemovedForGood(line: string, m: nat, p: string)
    requires m < |Rules| && Rules[m].0 == p && |p| > 0
    requires forall k :: 0 <= k < |p| ==> 'a' <= p[k] <= 'z'
    ensures !Contains(SanitizeLine(line), p)
  {
    AsciiWordMissesReplacements(p, m);
    assert |Rules[m].1| > 0;
    ReplaceAllRemoves(ApplyRules(line, m), p, Rules[m].1);
    forall k | m + 1 <= k < |Rules| ensures SharesNoChar(p, Rules[k].1) {
      AsciiWordMissesReplacements(p, k);
    }
    StaysAbsent(line, m + 1, |Rules|, p);
  }

  /** The English words among the rules are gone after sanitising. */
  lemma SanitizedHasNoEnglishTriggers(line: string)
    ensures !Contains(SanitizeLine(line), "removal")
    ensures !Contains(SanitizeLine(line), "conquest")
    ensures !Contains(SanitizeLine(line), "revolution")
    ensures !Contains(SanitizeLine(line), "independence")
  {
    assert !Contains(SanitizeLine(line), "removal") by { RemovedForGood(line, 2, "removal"); }
    assert !Contains(SanitizeLine(line), "conquest") by { RemovedForGood(line, 5, "conquest"); }
    assert !Contains(SanitizeLine(line), "revolution") by { RemovedForGood(line, 9, "revolution"); }
    assert !Contains(SanitizeLine(line), "independence") by { RemovedForGood(line, 10, "independence"); }
  }

  /** Text that contains the first character of none of the remaining patterns is left alone by them. */
  lemma {:induction false} UntouchedByLaterRules(line: string, n: nat, t: string)
    requires n <= |Rules| && ApplyRules(line, n) == t
    requires forall m :: n <= m < |Rules| ==> Rules[m].0[0] !in t
    ensures SanitizeLine(line) == t
    decreases |Rules| - n
  {
    if n < |Rules| {
      AbsentFirstChar(t, Rules[n].0);
      UntouchedByLaterRules(line, n + 1, t);
    }
  }

  /** One more rule: the next pattern replaced in what the earlier rules left. */
  lemma ApplyRulesStep(line: string, n: nat)
    requires n < |Rules|
    ensures |Rules[n].0| > 0
    ensures ApplyRules(line, n + 1) == ReplaceAll(ApplyRules(line, n), Rules[n].0, Rules[n].1)
  {
  }

  /** The first rule leaves 'hair removal' alone: it has no '제'. */
  lemma HairRemovalFirstRule(s: string)
    requires s == "hair removal"
    ensures ApplyRules(s, 1) == s
  {
    assert Rules[0].0 == "제모";
    AbsentFirstChar(s, "제모");
    ApplyRulesStep(s, 0);
    ReplaceAllAbsent(s, Rules[0].0, Rules[0].1);
  }

  /** The first two rules turn 'hair removal' into '모발 제거'. */
  lemma HairRemovalFirstRules(s: string)
    requires s == "hair removal"
    ensures ApplyRules(s, 2) == "모발 제거"
  {
    HairRemovalFirstRule(s);
    SecondRuleIsHairRemoval(s);
    SecondRuleOnItsPattern(s);
  }

  /** The second rule maps 'hair removal' to '모발 제거'. */
  lemma SecondRuleIsHairRemoval(s: string)
    requires s == "hair removal"
    ensures Rules[1].0 == s && Rules[1].1 == "모발 제거"
  {
  }

  /** Text the first rule left as it is and that is exactly the second pattern becomes its replacement. */
  lemma SecondRuleOnItsPattern(s: string)
    requires s == Rules[1].0 && ApplyRules(s, 1) == s
    ensures ApplyRules(s, 2) == Rules[1].1
  {
    ApplyRulesStep(s, 1);
    ReplaceAllWhole(s, Rules[1].1);
  }

  /** None of the patterns after the second starts with a character of '모발 제거'. */
  lemma LaterPatternsMissHairRemovalText()
    ensures forall m :: 2 <= m < |Rules| ==> Rules[m].0[0] !in "모발 제거"
  {
    assert forall m :: 2 <= m < |Rules| ==> Rules[m].0[0] in "r정대c혁독반i민통";
    assert forall c :: c in "r정대c혁독반i민통" ==> c !in "모발 제거";
  }

  /** Order matters: 'hair removal' is replaced whole before the bare 'removal' rule runs. */
  lemma HairRemovalReplacedWhole(s: string)
    requires s == "hair removal"
    ensures SanitizeLine(s) == "모발 제거"
  {
    HairRemovalFirstRules(s);
    LaterPatternsMissHairRemovalText();
    UntouchedByLaterRules(s, 2, "모발 제거");
  }

  // ----- solution -----

  /** The three parts of the explanation the chat model returns. */
  datatype Explanation = Explanation(keyConcept: Value, solution: Value, summary: Value)

  /**
   * solution: the user must be live and have an OCR record (its latest `problem`); the problem is
   * sanitised before it is sent (`ask` is the chat call, with parsing).  Every failure inside,
   * the Unauthorized and NotFound ones included, is reported as the same BadRequest.
   */
  function Solution(users: seq<User>, userId: int, problem: Option<seq<string>>,
                    ask: seq<string> -> Result<Explanation>): (r: Result<Explanation>)
    ensures r.Err? ==> r == Err(BadRequest, 400)
    ensures r.Ok? <==> LiveUser(users, userId) && problem.Some? && ask(SanitizeText(problem.value)).Ok?
    ensures r.Ok? ==> r == ask(SanitizeText(problem.value))
  {
    var inner: Result<Explanation> :=
      match Query.FindFirst(users, (u: User) => u.id == userId && !u.isDeleted)
      case None => Fail(Unauthorized)
      case Some(i) =>
        assert users[i].id == userId && !users[i].isDeleted;
        if problem.None? then Fail(NotFound) else ask(SanitizeText(problem.value));
    if inner.Err? then Fail(BadRequest) else inner
  }
}
