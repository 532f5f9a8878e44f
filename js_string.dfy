/**
 * The JavaScript string operations the core relies on (`trim`, `toLowerCase`, `includes`,
 * `indexOf`, `split`, `join`, `replace` with a string or a literal global pattern), over strings
 * as sequences of characters.
 */
module JsString {
  import opened Wrappers

  /** What `trim` strips and what `\s` matches: ECMAScript WhiteSpace and LineTerminator. */
  predicate IsWhitespace(c: char) {
    || c == '\t' || c == '\n' || c == '\U{B}' || c == '\U{C}' || c == '\r' || c == ' '
    || c == '\U{A0}' || c == '\U{1680}' || ('\U{2000}' <= c <= '\U{200A}')
    || c == '\U{2028}' || c == '\U{2029}' || c == '\U{202F}' || c == '\U{205F}'
    || c == '\U{3000}' || c == '\U{FEFF}'
  }

  /** `s` with its leading white space removed. */
  function TrimStart(s: string): (r: string)
    ensures |r| <= |s| && r == s[|s| - |r|..]
    ensures forall i :: 0 <= i < |s| - |r| ==> IsWhitespace(s[i])
    ensures r == [] || !IsWhitespace(r[0])
  {
    if |s| > 0 && IsWhitespace(s[0]) then TrimStart(s[1..]) else s
  }

  /** `s` with its trailing white space removed. */
  function TrimEnd(s: string): (r: string)
    ensures |r| <= |s| && r == s[..|r|]
    ensures forall i :: |r| <= i < |s| ==> IsWhitespace(s[i])
    ensures r == [] || !IsWhitespace(r[|r| - 1])
  {
    if |s| > 0 && IsWhitespace(s[|s| - 1]) then TrimEnd(s[..|s| - 1]) else s
  }

  /** JavaScript `s.trim()`. */
  function Trim(s: string): (r: string)
    ensures |r| <= |s|
    ensures r == [] || (!IsWhitespace(r[0]) && !IsWhitespace(r[|r| - 1]))
  {
    var t := TrimStart(s);
    var r := TrimEnd(t);
    assert r != [] ==> r[0] == t[0];
    r
  }

  /** Neither end of `s` is white space. */
  predicate Trimmed(s: string) {
    s == [] || (!IsWhitespace(s[0]) && !IsWhitespace(s[|s| - 1]))
  }

  lemma TrimEndUnique(s: string, r: string)
    requires |r| <= |s| && r == s[..|r|]
    requires forall i :: |r| <= i < |s| ==> IsWhitespace(s[i])
    requires r == [] || !IsWhitespace(r[|r| - 1])
    ensures r == TrimEnd(s)
  {
    var t := TrimEnd(s);
    assert |r| > 0 ==> r[|r| - 1] == s[|r| - 1];
    assert |t| > 0 ==> t[|t| - 1] == s[|t| - 1];
  }

  lemma TrimStartUnique(s: string, r: string)
    requires |r| <= |s| && r == s[|s| - |r|..]
    requires forall i :: 0 <= i < |s| - |r| ==> IsWhitespace(s[i])
    requires r == [] || !IsWhitespace(r[0])
    ensures r == TrimStart(s)
  {
    var t := TrimStart(s);
    assert |r| > 0 ==> r[0] == s[|s| - |r|];
    assert |t| > 0 ==> t[0] == s[|s| - |t|];
  }

  /** The result of `trim` has no white space at either end, and `trim` leaves such a string alone. */
  lemma TrimResultTrimmed(s: string)
    ensures Trimmed(Trim(s))
    ensures Trimmed(s) ==> Trim(s) == s
  {
    var t := TrimStart(s);
    var r := TrimEnd(t);
    if r != [] {
      assert r[0] == t[0];
    }
    if Trimmed(s) {
      TrimStartUnique(s, s);
      TrimEndUnique(s, s);
    }
  }

  lemma TrimIdempotent(s: string)
    ensures Trim(Trim(s)) == Trim(s)
  {
    TrimResultTrimmed(s);
    TrimResultTrimmed(Trim(s));
  }

  /** Trailing white space appended to a trimmed string is what `trim` takes away. */
  lemma TrimAppendWhitespace(s: string, w: string)
    requires Trimmed(s)
    requires forall i :: 0 <= i < |w| ==> IsWhitespace(w[i])
    ensures Trim(s + w) == s
  {
    var x := s + w;
    if s == [] {
      TrimStartUnique(x, []);
    } else {
      TrimStartUnique(x, x);
      TrimEndUnique(x, s);
    }
  }

  function LowerChar(c: char): char {
    if 'A' <= c <= 'Z' then (c as int + 32) as char else c
  }

  /** `s.toLowerCase()` on the ASCII letters. */
  function ToLowerCase(s: string): (r: string)
    ensures |r| == |s|
    ensures forall i :: 0 <= i < |s| ==> r[i] == LowerChar(s[i])
  {
    seq(|s|, i requires 0 <= i < |s| => LowerChar(s[i]))
  }

  /** No character of `t` is an upper-case ASCII letter. */
  predicate AllLower(t: string) {
    forall i :: 0 <= i < |t| ==> LowerChar(t[i]) == t[i]
  }

  /** A lower-cased string has no upper-case letter left. */
  lemma LowerCaseIsLower(s: string)
    ensures AllLower(ToLowerCase(s))
  {
    var l := ToLowerCase(s);
    forall i | 0 <= i < |l| ensures LowerChar(l[i]) == l[i] {
      assert l[i] == LowerChar(s[i]);
    }
  }

  /** Every slice of a lower-case string is lower case. */
  lemma SliceIsLower(t: string, lo: nat, hi: nat)
    requires lo <= hi <= |t| && AllLower(t)
    ensures AllLower(t[lo..hi])
  {
    forall i | 0 <= i < hi - lo ensures LowerChar(t[lo..hi][i]) == t[lo..hi][i] {
      assert t[lo..hi][i] == t[lo + i];
    }
  }

  /** A string with no upper-case ASCII letter is its own lower case. */
  lemma LowerFixed(t: string)
    requires AllLower(t)
    ensures ToLowerCase(t) == t
  {
  }

  /** Lower-casing a trimmed lower-cased string changes nothing: its characters are all lower case. */
  lemma LowerOfTrimmedLower(s: string)
    ensures ToLowerCase(Trim(ToLowerCase(s))) == Trim(ToLowerCase(s))
  {
    var l := ToLowerCase(s);
    LowerCaseIsLower(s);
    var t1 := TrimStart(l);
    SliceIsLower(l, |l| - |t1|, |l|);
    var t := TrimEnd(t1);
    SliceIsLower(t1, 0, |t|);
    assert t == Trim(l);
    LowerFixed(t);
  }

  predicate IsDigit(c: char) {
    '0' <= c <= '9'
  }

  /** The longest prefix of `s` made of decimal digits. */
  function DigitPrefix(s: string): (r: string)
    ensures |r| <= |s| && r == s[..|r|]
    ensures forall i :: 0 <= i < |r| ==> IsDigit(r[i])
    ensures |r| == |s| || !IsDigit(s[|r|])
  {
    if |s| > 0 && IsDigit(s[0]) then [s[0]] + DigitPrefix(s[1..]) else []
  }

  /** The number a string of decimal digits denotes. */
  function DecimalValue(d: string): nat
    requires forall i :: 0 <= i < |d| ==> IsDigit(d[i])
  {
    if |d| == 0 then 0
    else
      assert IsDigit(d[|d| - 1]);
      DecimalValue(d[..|d| - 1]) * 10 + (d[|d| - 1] as int - '0' as int)
  }

  /**
   * `parseInt(s)` with no radix, for decimal input: leading white space and one sign are skipped,
   * then the longest run of digits is read; no digits is NaN (None).
   */
  function ParseInt(s: string): Option<int> {
    ParseSigned(TrimStart(s))
  }

  /** What `parseInt` reads once the leading white space is gone: an optional sign, then digits. */
  function ParseSigned(t: string): Option<int> {
    var negative := |t| > 0 && t[0] == '-';
    var unsigned := if |t| > 0 && (t[0] == '+' || t[0] == '-') then t[1..] else t;
    match ParseDigits(unsigned)
    case None => None
    case Some(value) => Some(if negative then -(value as int) else value)
  }

  /** A value read after the sign `sign`: negated after a minus, unchanged otherwise. */
  function WithSign(sign: string, v: nat): int {
    if sign == "-" then -(v as int) else v
  }

  /** The value of the run of digits `u` starts with, or nothing when it starts with none. */
  function ParseDigits(u: string): Option<nat> {
    var digits := DigitPrefix(u);
    if |digits| == 0 then None else Some(DecimalValue(digits))
  }

  lemma ParseIntTen()
    ensures ParseInt("10") == Some(10)
  {
    var s := "10";
    assert !IsWhitespace(s[0]);
    assert TrimStart(s) == s;
    assert s[1..] == "0" && "0"[1..] == [];
    assert DigitPrefix("0") == "0";
    assert DigitPrefix(s) == s;
    assert s[..1] == "1" && "1"[..0] == [];
    assert DecimalValue("1") == 1;
    assert DecimalValue(s) == 10;
  }

  /** The digit run is the whole digit prefix when what follows it is not a digit. */
  lemma DigitPrefixOf(d: string, rest: string)
    requires forall i :: 0 <= i < |d| ==> IsDigit(d[i])
    requires rest == [] || !IsDigit(rest[0])
    ensures DigitPrefix(d + rest) == d
  {
    var s := d + rest;
    assert forall i :: 0 <= i < |d| ==> s[i] == d[i];
    assert |s| > |d| ==> s[|d|] == rest[0];
    assert s[..|d|] == d;
  }

  /** `parseInt` skips the leading white space, up to the first other character. */
  lemma ParseIntSkipsWhitespace(ws: string, x: string)
    requires forall i :: 0 <= i < |ws| ==> IsWhitespace(ws[i])
    requires x == [] || !IsWhitespace(x[0])
    ensures ParseInt(ws + x) == ParseSigned(x)
  {
    TrimStartUnique(ws + x, x);
  }

  /** A run of digits is read up to the first non-digit, as its decimal value. */
  lemma ParseDigitsOf(d: string, rest: string)
    requires |d| > 0 && forall i :: 0 <= i < |d| ==> IsDigit(d[i])
    requires rest == [] || !IsDigit(rest[0])
    ensures ParseDigits(d + rest) == Some(DecimalValue(d))
  {
    DigitPrefixOf(d, rest);
  }

  /** One leading sign is consumed, and a minus negates what the digits after it read as. */
  lemma ParseSignedSplit(sign: string, u: string)
    requires sign == "" || sign == "+" || sign == "-"
    requires sign == "" && u != [] ==> u[0] != '+' && u[0] != '-'
    ensures ParseSigned(sign + u) ==
      match ParseDigits(u)
      case None => None
      case Some(v) => Some(WithSign(sign, v))
  {
    var x := sign + u;
    if sign != "" {
      assert x[1..] == u;
    } else {
      assert x == u;
    }
  }

  /** A sign before digits that read as `v` gives `v`, negated after a minus. */
  lemma ParseSignedRead(sign: string, u: string, v: nat)
    requires sign == "" || sign == "+" || sign == "-"
    requires u != [] && u[0] != '+' && u[0] != '-'
    requires ParseDigits(u) == Some(v)
    ensures ParseSigned(sign + u) == Some(WithSign(sign, v))
  {
    ParseSignedSplit(sign, u);
  }

  /** After the optional sign, a non-empty run of digits is read as its value, negated after a minus. */
  lemma ParseSignedDigits(sign: string, d: string, rest: string)
    requires sign == "" || sign == "+" || sign == "-"
    requires |d| > 0 && forall i :: 0 <= i < |d| ==> IsDigit(d[i])
    requires rest == [] || !IsDigit(rest[0])
    ensures ParseSigned(sign + (d + rest)) == Some(WithSign(sign, DecimalValue(d)))
  {
    var u := d + rest;
    ParseDigitsOf(d, rest);
    assert u[0] == d[0];
    ParseSignedRead(sign, u, DecimalValue(d));
  }

  /**
   * `parseInt` reads leading white space, an optional sign and then a non-empty run of digits
   * as that run's decimal value, negated after a minus, ignoring whatever follows the run.
   */
  lemma ParseIntDigits(ws: string, sign: string, d: string, rest: string)
    requires forall i :: 0 <= i < |ws| ==> IsWhitespace(ws[i])
    requires sign == "" || sign == "+" || sign == "-"
    requires |d| > 0 && forall i :: 0 <= i < |d| ==> IsDigit(d[i])
    requires rest == [] || !IsDigit(rest[0])
    ensures ParseInt(ws + (sign + (d + rest))) == Some(WithSign(sign, DecimalValue(d)))
  {
    var x := sign + (d + rest);
    assert !IsWhitespace(x[0]) by {
      assert x[0] == if sign == "" then d[0] else sign[0];
    }
    ParseIntSkipsWhitespace(ws, x);
    ParseSignedDigits(sign, d, rest);
  }

  /** With no digit after the white space and the optional sign, `parseInt` is NaN. */
  lemma ParseIntNoDigits(ws: string, sign: string, rest: string)
    requires forall i :: 0 <= i < |ws| ==> IsWhitespace(ws[i])
    requires sign == "" || sign == "+" || sign == "-"
    requires rest == [] || !IsDigit(rest[0])
    requires sign == "" && rest != [] ==> !IsWhitespace(rest[0]) && rest[0] != '+' && rest[0] != '-'
    ensures ParseInt(ws + (sign + rest)) == None
  {
    var x := sign + rest;
    assert x != [] ==> x[0] == if sign == "" then rest[0] else sign[0];
    ParseIntSkipsWhitespace(ws, x);
    ParseSignedSplit(sign, rest);
  }

  /** `sub` occurs in `s` starting at index `j`. */
  ghost predicate OccursAt(s: string, sub: string, j: int) {
    0 <= j && j + |sub| <= |s| && s[j..j + |sub|] == sub
  }

  lemma OccursShift(s: string, sub: string, t: nat, j: int)
    requires t <= |s|
    ensures OccursAt(s[t..], sub, j) <==> (0 <= j && OccursAt(s, sub, j + t))
  {
    if 0 <= j && j + |sub| <= |s| - t {
      assert s[t..][j..j + |sub|] == s[j + t..j + t + |sub|];
    }
  }

  lemma OccursInPrefix(s: string, sub: string, k: nat, j: int)
    requires k <= |s|
    ensures OccursAt(s[..k], sub, j) ==> OccursAt(s, sub, j)
  {
    if OccursAt(s[..k], sub, j) {
      assert s[..k][j..j + |sub|] == s[j..j + |sub|];
    }
  }

  /** A string with no occurrence of `sub` has none in any prefix or suffix either. */
  lemma AbsentInParts(s: string, sub: string, k: nat)
    requires k <= |s| && !Contains(s, sub)
    ensures !Contains(s[..k], sub) && !Contains(s[k..], sub)
  {
    forall j ensures !OccursAt(s[..k], sub, j) { OccursInPrefix(s, sub, k, j); }
    forall j ensures !OccursAt(s[k..], sub, j) { OccursShift(s, sub, k, j); }
  }

  /** `s.indexOf(sub)`: the first index at which `sub` occurs, if any. */
  function IndexOf(s: string, sub: string): (r: Option<nat>)
    ensures r.Some? ==> OccursAt(s, sub, r.value)
    ensures r.Some? ==> forall j :: 0 <= j < r.value ==> !OccursAt(s, sub, j)
    ensures r.None? ==> forall j :: !OccursAt(s, sub, j)
    decreases |s|
  {
    if |s| < |sub| then None
    else if s[..|sub|] == sub then Some(0)
    else
      var rec := IndexOf(s[1..], sub);
      assert forall j :: OccursAt(s[1..], sub, j) <==> (0 <= j && OccursAt(s, sub, j + 1)) by {
        forall j { OccursShift(s, sub, 1, j); }
      }
      assert !OccursAt(s, sub, 0) by { assert s[0..|sub|] == s[..|sub|]; }
      assert forall j :: OccursAt(s, sub, j) ==> j == 0 || OccursAt(s[1..], sub, j - 1);
      match rec
      case None => None
      case Some(k) => Some(k + 1)
  }

  /** `s.includes(sub)`. */
  function Contains(s: string, sub: string): (r: bool)
    ensures r <==> exists j :: OccursAt(s, sub, j)
  {
    IndexOf(s, sub).Some?
  }

  /** A pattern whose first character does not appear in `s` does not occur in it. */
  lemma AbsentFirstChar(s: string, p: string)
    requires |p| > 0 && p[0] !in s
    ensures !Contains(s, p)
  {
    forall j | 0 <= j && j + |p| <= |s| ensures !OccursAt(s, p, j) {
      assert s[j..j + |p|][0] == s[j];
    }
  }

  /** `s.split(sep)` for a non-empty separator. */
  function Split(s: string, sep: string): (r: seq<string>)
    requires |sep| > 0
    ensures |r| >= 1
    decreases |s|
  {
    match IndexOf(s, sep)
    case None => [s]
    case Some(k) => [s[..k]] + Split(s[k + |sep|..], sep)
  }

  /** `parts.join(sep)`. */
  function Join(parts: seq<string>, sep: string): string {
    if |parts| == 0 then ""
    else if |parts| == 1 then parts[0]
    else parts[0] + sep + Join(parts[1..], sep)
  }

  /** Joining the pieces of a split with the same separator gives back the string. */
  lemma {:induction false} JoinSplit(s: string, sep: string)
    requires |sep| > 0
    ensures Join(Split(s, sep), sep) == s
    decreases |s|
  {
    match IndexOf(s, sep)
    case None =>
    case Some(k) =>
      var rest := s[k + |sep|..];
      var parts := Split(rest, sep);
      assert Split(s, sep) == [s[..k]] + parts;
      JoinSplit(rest, sep);
      assert ([s[..k]] + parts)[1..] == parts;
      assert Join([s[..k]] + parts, sep) == s[..k] + sep + rest;
      CutAround(s, k, |sep|);
  }

  /** A string is its prefix, a middle slice and the rest, put back together. */
  lemma CutAround(s: string, k: nat, m: nat)
    requires k + m <= |s|
    ensures s == s[..k] + s[k..k + m] + s[k + m..]
  {
    var t := s[k..];
    assert t == t[..m] + t[m..];
    assert t[..m] == s[k..k + m];
    assert t[m..] == s[k + m..];
    assert s == s[..k] + t;
  }

  /** Splitting on one character undoes a join of pieces that do not contain that character. */
  lemma {:induction false} SplitJoin(parts: seq<string>, c: char)
    requires |parts| >= 1
    requires forall k :: 0 <= k < |parts| ==> c !in parts[k]
    ensures Split(Join(parts, [c]), [c]) == parts
  {
    var s := Join(parts, [c]);
    if |parts| == 1 {
      AbsentFirstChar(s, [c]);
    } else {
      var rest := Join(parts[1..], [c]);
      SplitJoin(parts[1..], c);
      var p0 := parts[0];
      assert s == p0 + [c] + rest;
      FirstSeparator(p0, c, rest);
      assert Split(s, [c]) == [p0] + Split(rest, [c]) by {
        assert s[..|p0|] == p0;
        assert s[|p0| + 1..] == rest;
      }
      assert parts == [p0] + parts[1..];
    }
  }

  /** The first occurrence of `c` in `a + [c] + b` is the one after `a` when `a` lacks `c`. */
  lemma FirstSeparator(a: string, c: char, b: string)
    requires c !in a
    ensures IndexOf(a + [c] + b, [c]) == Some(|a|)
  {
    var s := a + [c] + b;
    assert OccursAt(s, [c], |a|) by { assert s[|a|..|a| + 1] == [c]; }
    forall j | 0 <= j < |a| ensures !OccursAt(s, [c], j) {
      assert s[j] == a[j];
      assert s[j..j + 1][0] == s[j];
    }
  }

  /** `s.replace(pat, rep)` with a string pattern: only the first occurrence is replaced. */
  function ReplaceFirst(s: string, pat: string, rep: string): string {
    match IndexOf(s, pat)
    case None => s
    case Some(k) => s[..k] + rep + s[k + |pat|..]
  }

  /** `s.replace(/pat/g, rep)` for a literal pattern: every occurrence, left to right, without overlap. */
  function ReplaceAll(s: string, pat: string, rep: string): string
    requires |pat| > 0
    decreases |s|
  {
    match IndexOf(s, pat)
    case None => s
    case Some(k) => s[..k] + rep + ReplaceAll(s[k + |pat|..], pat, rep)
  }

  /** No character of `a` appears in `b`. */
  predicate SharesNoChar(a: string, b: string) {
    forall i, j :: 0 <= i < |a| && 0 <= j < |b| ==> a[i] != b[j]
  }

  /** A pattern absent from both sides cannot straddle a middle part it shares no character with. */
  lemma NoOccurrenceAround(a: string, m: string, c: string, p: string)
    requires |p| > 0 && |m| > 0 && SharesNoChar(p, m)
    requires !Contains(a, p) && !Contains(c, p)
    ensures !Contains(a + m + c, p)
  {
    var x := a + m + c;
    forall j | 0 <= j && j + |p| <= |x| ensures !OccursAt(x, p, j) {
      if j + |p| <= |a| {
        OccursInLeft(a + m, c, p, j);
        OccursInLeft(a, m, p, j);
      } else if j >= |a| + |m| {
        OccursInRight(a + m, c, p, j);
      } else {
        var t := if j < |a| then |a| else j;
        assert x[j..j + |p|][t - j] == x[t] == m[t - |a|];
        assert p[t - j] != m[t - |a|];
      }
    }
  }

  /** An occurrence that ends within `a` is one in `a + b`, and the other way round. */
  lemma OccursInLeft(a: string, b: string, p: string, j: nat)
    requires j + |p| <= |a|
    ensures OccursAt(a + b, p, j) <==> OccursAt(a, p, j)
  {
    assert (a + b)[j..j + |p|] == a[j..j + |p|];
  }

  /** An occurrence that starts within `b` is one in `a + b`, shifted by `|a|`. */
  lemma OccursInRight(a: string, b: string, p: string, j: nat)
    requires j >= |a|
    ensures OccursAt(a + b, p, j) <==> OccursAt(b, p, j - |a|)
  {
    if j + |p| <= |a + b| {
      assert (a + b)[j..j + |p|] == b[j - |a|..j - |a| + |p|];
    }
  }

  /** A replacement that shares no character with the pattern leaves no occurrence behind. */
  lemma {:induction false} ReplaceAllRemoves(s: string, p: string, rep: string)
    requires |p| > 0 && |rep| > 0 && SharesNoChar(p, rep)
    ensures !Contains(ReplaceAll(s, p, rep), p)
    decreases |s|
  {
    match IndexOf(s, p)
    case None =>
    case Some(k) =>
      var rest := s[k + |p|..];
      var tail := ReplaceAll(rest, p, rep);
      assert !Contains(tail, p) by {
        ReplaceAllRemoves(rest, p, rep);
      }
      assert !Contains(s[..k], p) by {
        forall j ensures !OccursAt(s[..k], p, j) { OccursInPrefix(s, p, k, j); }
      }
      NoOccurrenceAround(s[..k], rep, tail, p);
  }

  /** A pattern that does not occur leaves the text as it is. */
  lemma ReplaceAllAbsent(s: string, q: string, rep: string)
    requires |q| > 0 && !Contains(s, q)
    ensures ReplaceAll(s, q, rep) == s
  {
  }

  /** A text that is exactly the pattern becomes exactly the replacement. */
  lemma ReplaceAllWhole(s: string, rep: string)
    requires |s| > 0
    ensures ReplaceAll(s, s, rep) == rep
  {
    assert OccursAt(s, s, 0) by { assert s[0..|s|] == s; }
    assert IndexOf(s, s) == Some(0);
    assert s[|s|..] == [];
    assert ReplaceAll([], s, rep) == [];
    assert s[..0] == [];
  }

  /** Replacing one pattern by text that shares no character with `p` cannot create an occurrence of `p`. */
  lemma {:induction false} ReplaceAllKeepsAbsent(s: string, q: string, rep: string, p: string)
    requires |q| > 0 && |p| > 0 && |rep| > 0 && SharesNoChar(p, rep)
    requires !Contains(s, p)
    ensures !Contains(ReplaceAll(s, q, rep), p)
    decreases |s|
  {
    match IndexOf(s, q)
    case None =>
    case Some(k) =>
      var rest := s[k + |q|..];
      var tail := ReplaceAll(rest, q, rep);
      assert !Contains(tail, p) by {
        AbsentInParts(s, p, k + |q|);
        ReplaceAllKeepsAbsent(rest, q, rep, p);
      }
      assert !Contains(s[..k], p) by {
        AbsentInParts(s, p, k);
      }
      NoOccurrenceAround(s[..k], rep, tail, p);
  }
}
