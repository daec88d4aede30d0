/**
 * The OFX statement parser (src/components/ofx/OFXParser.ts).
 *
 * `ParseOFX` tries the strict XML reading first and falls back to the tolerant
 * SGML reading. The XML reading is left to a browser XML engine, so here it is an
 * oracle that reports whether it threw, whether the document held a `parsererror`
 * element, and what it extracted. The SGML reading is string search: `Section`
 * isolates a container, `Field` is the regular expression `/<TAG>([^\n\r<]+)/i`,
 * and `BlockSpans` is the global, lazy match `/<STMTTRN>[\s\S]*?<\/STMTTRN>/gi`.
 * `crypto.randomUUID` is the injected supplier `newId`: the k-th identifier a
 * parse asks for is `newId(k)`.
 */
module OFXParser {
  import opened Wrappers
  import opened Strings

  // ---------------------------------------------------------------------------
  // Data model
  // ---------------------------------------------------------------------------

  datatype AccountInfo = AccountInfo(
    bankId: Option<string>,
    accountId: Option<string>,
    accountType: Option<string>,
    balance: Option<real>)

  datatype Transaction = Transaction(
    trnType: string,
    dtPosted: string,
    amount: real,
    fitId: string,
    name: Option<string>,
    memo: Option<string>)

  datatype OFXData = OFXData(account: AccountInfo, transactions: seq<Transaction>)

  /** JavaScript's `a || b` for an optional string: `undefined` and `""` are falsy. */
  function OrElse(a: Option<string>, b: string): (r: string)
    ensures a.Some? && a.value != "" ==> r == a.value
    ensures (a.None? || a.value == "") ==> r == b
  {
    if a.Some? && a.value != "" then a.value else b
  }

  /** `t.name || t.memo || ""`: the text every consumer shows, searches and classifies. */
  function Description(t: Transaction): (d: string)
    ensures t.name.Some? && t.name.value != "" ==> d == t.name.value
    ensures (t.name.None? || t.name.value == "") && t.memo.Some? && t.memo.value != "" ==> d == t.memo.value
    ensures (t.name.None? || t.name.value == "") && (t.memo.None? || t.memo.value == "") ==> d == ""
  {
    OrElse(t.name, OrElse(t.memo, ""))
  }

  /** `Math.abs` on an amount. */
  function Abs(x: real): (r: real)
    ensures r >= 0.0 && (r == x || r == -x)
  {
    if x < 0.0 then -x else x
  }

  /** `(trnType || "").toUpperCase().includes("CREDIT")`: the credit test of the table and the summary cards. */
  predicate IsCredit(trnType: string) {
    Contains(ToUpper(trnType), "CREDIT")
  }

  // ---------------------------------------------------------------------------
  // `parseNumber`: `Number(val.replace(",", "."))`, absent on NaN
  // ---------------------------------------------------------------------------

  predicate IsDigit(c: char) { '0' <= c <= '9' }

  predicate AllDigits(s: string) {
    forall i :: 0 <= i < |s| ==> IsDigit(s[i])
  }

  function DigitsValue(s: string): nat
    requires AllDigits(s)
  {
    if s == [] then 0 else DigitsValue(s[..|s| - 1]) * 10 + (s[|s| - 1] as int - '0' as int)
  }

  function Pow10(n: nat): (p: nat)
    ensures p >= 1
  {
    if n == 0 then 1 else 10 * Pow10(n - 1)
  }

  /**
   * A decimal literal in the sense of JavaScript's `Number`, without sign, exponent or
   * radix prefix: digits and at most one `.`, with at least one digit.
   */
  predicate IsDecimalLiteral(t: string) {
    && (forall i :: 0 <= i < |t| ==> IsDigit(t[i]) || t[i] == '.')
    && (forall i, j :: 0 <= i < j < |t| && t[i] == '.' ==> t[j] != '.')
    && (exists i :: 0 <= i < |t| && IsDigit(t[i]))
  }

  /** The value of the digits `whole`, a point, and the digits `frac`. */
  function PointValue(whole: string, frac: string): Option<real> {
    if AllDigits(whole) && AllDigits(frac) && |whole| + |frac| > 0
    then Some(DigitsValue(whole) as real + DigitsValue(frac) as real / Pow10(|frac|) as real)
    else None
  }

  /** The value of `ddd`, `ddd.`, `.ddd` or `ddd.ddd`. */
  function UnsignedDecimal(t: string): Option<real> {
    var k := FirstIndex(t, '.');
    if k == |t| then
      if |t| > 0 && AllDigits(t) then Some(DigitsValue(t) as real) else None
    else PointValue(t[..k], t[k + 1..])
  }

  /** `UnsignedDecimal` accepts exactly the decimal literals. */
  lemma UnsignedDecimalAccepts(t: string)
    ensures UnsignedDecimal(t).Some? <==> IsDecimalLiteral(t)
  {
    var k := FirstIndex(t, '.');
    if k == |t| {
      if IsDecimalLiteral(t) {
        var i :| 0 <= i < |t| && IsDigit(t[i]);
      }
    } else {
      var whole, frac := t[..k], t[k + 1..];
      if UnsignedDecimal(t).Some? {
        assert forall i :: 0 <= i < |t| ==> IsDigit(t[i]) || t[i] == '.' by {
          forall i | 0 <= i < |t| ensures IsDigit(t[i]) || t[i] == '.' {
            if i < k { assert whole[i] == t[i]; }
            else if i > k { assert frac[i - k - 1] == t[i]; }
          }
        }
        assert forall i, j :: 0 <= i < j < |t| && t[i] == '.' ==> t[j] != '.' by {
          forall i, j | 0 <= i < j < |t| && t[i] == '.' ensures t[j] != '.' {
            assert frac[j - k - 1] == t[j];
          }
        }
        if |whole| > 0 { assert IsDigit(t[0]); } else { assert IsDigit(t[k + 1]); }
      }
      if IsDecimalLiteral(t) {
        assert AllDigits(whole) by {
          forall i | 0 <= i < |whole| ensures IsDigit(whole[i]) { assert whole[i] == t[i]; }
        }
        assert AllDigits(frac) by {
          forall i | 0 <= i < |frac| ensures IsDigit(frac[i]) { assert frac[i] == t[k + 1 + i]; }
        }
        var i :| 0 <= i < |t| && IsDigit(t[i]);
        assert i != k;
      }
    }
  }

  /** `Number` on text already trimmed: empty is 0, and an optional sign may lead. */
  function SignedDecimal(t: string): Option<real> {
    if t == [] then Some(0.0)
    else if t[0] == '-' then
      match UnsignedDecimal(t[1..])
      case Some(v) => Some(-v)
      case None => None
    else if t[0] == '+' then UnsignedDecimal(t[1..])
    else UnsignedDecimal(t)
  }

  /**
   * JavaScript's `Number(s)` on the plain decimal forms: white space around the text
   * is ignored, white space alone is 0.
   */
  function StringToNumber(s: string): Option<real> {
    SignedDecimal(Trim(s))
  }

  /** `parseNumber(val)`: absent for an absent or empty string and for anything `Number` rejects. */
  function ParseNumber(val: Option<string>): (r: Option<real>)
    ensures val.None? || val.value == "" ==> r.None?
  {
    if val.None? || val.value == "" then None
    else StringToNumber(ReplaceFirst(val.value, ',', '.'))
  }

  /** The characters `parseNumber` can accept at all. */
  predicate IsNumberChar(c: char) {
    IsDigit(c) || c == '.' || c == ',' || c == '+' || c == '-' || IsSpace(c)
  }

  predicate IsSeparator(c: char) { c == '.' || c == ',' }

  /** Where the unsigned literal starts in the trimmed text: after a leading `+` or `-`. */
  function SignOffset(t: string): nat {
    if |t| > 0 && (t[0] == '-' || t[0] == '+') then 1 else 0
  }

  /** On trimmed text, `Number` accepts the empty string and an optionally signed decimal literal, and nothing else. */
  lemma SignedDecimalAccepts(t: string)
    ensures SignedDecimal(t).Some? <==> t == [] || IsDecimalLiteral(t[SignOffset(t)..])
  {
    if t != [] {
      if SignOffset(t) == 0 { assert t[0..] == t; }
      UnsignedDecimalAccepts(t[SignOffset(t)..]);
    }
  }

  /** Trimmed text holding a character outside digits, separators and white space, other than a leading sign, is not a number. */
  lemma SignedRejectsForeignChar(t: string, i: nat)
    requires i < |t| && !IsNumberChar(t[i])
    ensures SignedDecimal(t).None?
  {
    var d := SignOffset(t);
    assert t[d..][i - d] == t[i];
    SignedDecimalAccepts(t);
  }

  /** A string with a character outside digits, signs, separators and white space is not a number. */
  lemma ParseNumberRejectsForeignChar(s: string, i: nat)
    requires i < |s| && !IsNumberChar(s[i])
    ensures ParseNumber(Some(s)).None?
  {
    var r := ReplaceFirst(s, ',', '.');
    assert r[i] == s[i];
    TrimKeepsInner(r, i);
    SignedRejectsForeignChar(Trim(r), i - TrimOffset(r));
  }

  /**
   * Two decimal separators make the text not a number: only the first `,` becomes `.`,
   * so `"1.234,56"` reads as `"1.234.56"`.
   */
  lemma ParseNumberRejectsTwoSeparators(s: string, i: nat, j: nat)
    requires i < j < |s| && IsSeparator(s[i]) && IsSeparator(s[j])
    ensures ParseNumber(Some(s)).None?
  {
    var r := ReplaceFirst(s, ',', '.');
    assert IsSeparator(r[i]) && IsSeparator(r[j]);
    TwoSeparatorsNotNumber(r, i, j);
  }

  lemma TwoSeparatorsNotNumber(r: string, i: nat, j: nat)
    requires i < j < |r| && IsSeparator(r[i]) && IsSeparator(r[j])
    ensures StringToNumber(r).None?
  {
    var t, a := Trim(r), TrimOffset(r);
    assert a <= i && IsSeparator(t[i - a]) by { TrimKeepsInner(r, i); }
    assert j - a < |t| && IsSeparator(t[j - a]) by { TrimKeepsInner(r, j); }
    SignedRejectsTwoSeparators(t, i - a, j - a);
  }

  lemma SignedRejectsTwoSeparators(t: string, i: nat, j: nat)
    requires i < j < |t| && IsSeparator(t[i]) && IsSeparator(t[j])
    ensures SignedDecimal(t).None?
  {
    var d := SignOffset(t);
    assert t[d..][i - d] == t[i] && t[d..][j - d] == t[j];
    TwoSeparatorsNotLiteral(t[d..], i - d, j - d);
    SignedDecimalAccepts(t);
  }

  lemma TwoSeparatorsNotLiteral(u: string, i: nat, j: nat)
    requires i < j < |u| && IsSeparator(u[i]) && IsSeparator(u[j])
    ensures !IsDecimalLiteral(u)
  {
  }

  lemma UnsignedDecimalValue(whole: string, frac: string)
    requires AllDigits(whole) && AllDigits(frac) && |whole| > 0
    ensures UnsignedDecimal(whole + "." + frac) == PointValue(whole, frac)
  {
    var p := whole + "." + frac;
    assert FirstIndex(p, '.') == |whole| by {
      assert p[|whole|] == '.';
      forall j | 0 <= j < |whole| ensures p[j] != '.' { assert p[j] == whole[j]; assert IsDigit(whole[j]); }
    }
    assert p[..|whole|] == whole && p[|whole| + 1..] == frac;
  }

  /** A literal that starts with a digit and has no white space at its ends is read as it stands. */
  lemma StringToNumberOfLiteral(p: string)
    requires |p| > 0 && IsDigit(p[0]) && !IsSpace(p[|p| - 1])
    ensures StringToNumber(p) == UnsignedDecimal(p)
  {
    TrimOfUnpadded(p);
  }

  /** A comma decimal reads as the same value written with a point: `"123,45"` is 123.45. */
  lemma ParseNumberCommaDecimal(whole: string, frac: string)
    requires AllDigits(whole) && AllDigits(frac) && |whole| > 0
    ensures ParseNumber(Some(whole + "," + frac)) == PointValue(whole, frac)
  {
    var s := whole + "," + frac;
    var p := whole + "." + frac;
    assert ReplaceFirst(s, ',', '.') == p by {
      assert FirstIndex(s, ',') == |whole| by {
        assert s[|whole|] == ',';
        forall i | 0 <= i < |whole| ensures s[i] != ',' { assert s[i] == whole[i]; assert IsDigit(whole[i]); }
      }
    }
    assert StringToNumber(p) == UnsignedDecimal(p) by {
      assert IsDigit(p[0]) by { assert p[0] == whole[0]; }
      assert !IsSpace(p[|p| - 1]) by {
        if |frac| > 0 { assert p[|p| - 1] == frac[|frac| - 1]; assert IsDigit(frac[|frac| - 1]); }
      }
      StringToNumberOfLiteral(p);
    }
    UnsignedDecimalValue(whole, frac);
  }

  /** `"123,45"` is 123.45. */
  lemma ParseNumberCommaExample()
    ensures ParseNumber(Some("123,45")) == Some(123.45)
  {
    assert PointValue("123", "45") == Some(123.45) by {
      assert AllDigits("123") && AllDigits("45");
      assert DigitsValue("123") == 123 by {
        assert "123"[..2] == "12" && "12"[..1] == "1" && "1"[..0] == "";
      }
      assert DigitsValue("45") == 45 by { assert "45"[..1] == "4" && "4"[..0] == ""; }
      assert Pow10(2) == 100;
    }
    assert "123,45" == "123" + "," + "45";
    ParseNumberCommaDecimal("123", "45");
  }

  /** Thousands separators are not understood: `"1.234,56"` is rejected. */
  lemma ParseNumberThousandsExample()
    ensures ParseNumber(Some("1.234,56")).None?
  {
    ParseNumberRejectsTwoSeparators("1.234,56", 1, 5);
  }

  // ---------------------------------------------------------------------------
  // `safeText` and the XML reading
  // ---------------------------------------------------------------------------

  /** `el?.textContent?.trim() || undefined`. */
  function SafeText(content: Option<string>): (r: Option<string>)
    ensures r.Some? <==> content.Some? && Trim(content.value) != ""
    ensures r.Some? ==> r.value == Trim(content.value)
    ensures r.Some? ==> r.value != "" && !IsSpace(r.value[0]) && !IsSpace(r.value[|r.value| - 1])
  {
    if content.None? then None
    else
      var t := Trim(content.value);
      if t == "" then None else Some(t)
  }

  lemma SafeTextIdempotent(content: Option<string>)
    ensures SafeText(SafeText(content)) == SafeText(content)
  {
    if SafeText(content).Some? {
      TrimIdempotent(content.value);
    }
  }

  /** What the browser XML engine does with the text: throw, or yield a document. */
  datatype XmlParse =
    | Threw
    | Parsed(hasParserError: bool, extracted: OFXData)

  /** `parseAsXML`: null when parsing threw or the document holds a `parsererror` element. */
  function ParseAsXML(p: XmlParse): (r: Option<OFXData>)
    ensures r.None? <==> p.Threw? || p.hasParserError
    ensures r.Some? ==> r.value == p.extracted
  {
    match p
    case Threw => None
    case Parsed(err, data) => if err then None else Some(data)
  }

  // ---------------------------------------------------------------------------
  // `section(name)`
  // ---------------------------------------------------------------------------

  function OpenTag(name: string): string { "<" + name + ">" }

  function CloseTag(name: string): string { "</" + name + ">" }

  /** `i` is the first index at or after `from` where `pat` occurs. */
  predicate IsFirstFrom(s: string, pat: string, from: nat, i: nat) {
    from <= i && OccursAt(s, pat, i) && forall j :: from <= j < i ==> !OccursAt(s, pat, j)
  }

  ghost predicate NoneFrom(s: string, pat: string, from: nat) {
    forall j :: from <= j ==> !OccursAt(s, pat, j)
  }

  /**
   * `section(name)`: absent when `<name>` does not occur; otherwise the text from the
   * first `<name>` up to, not including, the first `</name>` after it, or to the end.
   */
  function Section(text: string, name: string): (r: Option<string>)
    ensures r.None? <==> !Contains(text, OpenTag(name))
  {
    IndexOfFindsContains(text, OpenTag(name));
    match IndexOf(text, OpenTag(name), 0)
    case None => None
    case Some(st) =>
      match IndexOf(text, CloseTag(name), st)
      case Some(en) => Some(text[st..en])
      case None => Some(text[st..])
  }

  /**
   * Where the section lies: given the first `<name>` at `st`, the section is the slice from
   * `st` to the first `</name>` at or after `st`, or to the end of the text when there is none.
   */
  lemma SectionDelimited(text: string, name: string, st: nat)
    requires IsFirstFrom(text, OpenTag(name), 0, st)
    ensures Section(text, name).Some?
    ensures var r := Section(text, name).value;
            && st + |r| <= |text| && r == text[st..st + |r|]
            && (|| IsFirstFrom(text, CloseTag(name), st, st + |r|)
                || (NoneFrom(text, CloseTag(name), st) && st + |r| == |text|))
  {
    IndexOfAt(text, OpenTag(name), 0, st);
  }

  /** A tag name of the format: upper-case ASCII letters. */
  predicate IsTagName(name: string) {
    |name| > 0 && forall i :: 0 <= i < |name| ==> IsUpperLetter(name[i])
  }

  /** No closing tag can begin inside an opening tag of the same name. */
  lemma CloseNotInsideOpen(text: string, name: string, st: nat, en: nat)
    requires IsTagName(name)
    requires OccursAt(text, OpenTag(name), st) && st <= en < st + |OpenTag(name)|
    ensures !OccursAt(text, CloseTag(name), en)
  {
    var open, close := OpenTag(name), CloseTag(name);
    assert text[st..st + |open|][en - st] == text[en];
    if en + |close| <= |text| {
      assert text[en..en + |close|][0] == text[en];
      if en == st {
        assert text[en..en + |close|][1] == text[en + 1];
        assert text[st..st + |open|][1] == text[st + 1];
        assert IsUpperLetter(name[0]);
      } else if en - st <= |name| {
        assert IsUpperLetter(name[en - st - 1]);
      }
    }
  }

  /** A section found starts with its opening tag, so it is never the empty string. */
  lemma SectionStartsWithOpenTag(text: string, name: string)
    requires IsTagName(name)
    requires Section(text, name).Some?
    ensures |Section(text, name).value| >= |OpenTag(name)|
    ensures Section(text, name).value[..|OpenTag(name)|] == OpenTag(name)
  {
    var st := IndexOf(text, OpenTag(name), 0).value;
    var r := Section(text, name).value;
    var open := OpenTag(name);
    assert st + |r| <= |text| && r == text[st..st + |r|] && |r| >= |open| by {
      SectionDelimited(text, name, st);
      if |r| < |open| && st + |r| < |text| {
        CloseNotInsideOpen(text, name, st, st + |r|);
      }
    }
    assert r[..|open|] == text[st..st + |open|];
  }

  // ---------------------------------------------------------------------------
  // Leaf fields: `/<TAG>([^\n\r<]+)/i`
  // ---------------------------------------------------------------------------

  /** The characters that end a leaf value (`[^\n\r<]` accepts every other character). */
  predicate IsStop(c: char) { c == '\n' || c == '\r' || c == '<' }

  predicate NoStop(s: string) {
    forall i :: 0 <= i < |s| ==> !IsStop(s[i])
  }

  /**
   * `pat` occurs at `i`, letters compared without case (the regular expression `i` flag):
   * the upper-cased text holds the upper-cased pattern there.
   */
  predicate OccursAtIgnoreCase(s: string, pat: string, i: nat) {
    OccursAt(ToUpper(s), ToUpper(pat), i)
  }

  /** The regular expression matches at `i`: `<TAG>` and then one accepted character. */
  predicate FieldAt(s: string, tag: string, i: nat) {
    OccursAtIgnoreCase(s, OpenTag(tag), i) && i + |OpenTag(tag)| < |s| && !IsStop(s[i + |OpenTag(tag)|])
  }

  /** `v` is the greedy capture of the match at `i`: every accepted character after the tag. */
  predicate CaptureAt(s: string, tag: string, i: nat, v: string) {
    var j := i + |OpenTag(tag)|;
    && j + |v| <= |s| && v == s[j..j + |v|]
    && |v| > 0 && NoStop(v)
    && (j + |v| == |s| || IsStop(s[j + |v|]))
  }

  /** The number of accepted characters from `j` on. */
  function RunLength(s: string, j: nat): (n: nat)
    requires j <= |s|
    decreases |s| - j
    ensures j + n <= |s|
    ensures forall k :: j <= k < j + n ==> !IsStop(s[k])
    ensures j + n == |s| || IsStop(s[j + n])
  {
    if j == |s| || IsStop(s[j]) then 0 else 1 + RunLength(s, j + 1)
  }

  /** Where the leftmost match at or after `from` starts. */
  function FieldStart(s: string, tag: string, from: nat): (r: Option<nat>)
    decreases |s| - from
    ensures r.Some? ==> from <= r.value && FieldAt(s, tag, r.value)
    ensures r.Some? ==> forall i :: from <= i < r.value ==> !FieldAt(s, tag, i)
    ensures r.None? ==> forall i :: from <= i ==> !FieldAt(s, tag, i)
  {
    if from + |OpenTag(tag)| >= |s| then None
    else if FieldAt(s, tag, from) then Some(from)
    else FieldStart(s, tag, from + 1)
  }

  /** `s.match(/<TAG>([^\n\r<]+)/i)?.[1]`. */
  function Field(s: string, tag: string): (r: Option<string>)
    ensures r.Some? ==> |r.value| > 0 && NoStop(r.value)
    ensures r.None? <==> forall i :: !FieldAt(s, tag, i)
  {
    match FieldStart(s, tag, 0)
    case None => None
    case Some(i) =>
      var j := i + |OpenTag(tag)|;
      Some(s[j..j + RunLength(s, j)])
  }

  /** Given the leftmost match at `i`, the field is its greedy capture. */
  lemma FieldCapture(s: string, tag: string, i: nat)
    requires FieldAt(s, tag, i) && forall k :: 0 <= k < i ==> !FieldAt(s, tag, k)
    ensures Field(s, tag).Some? && CaptureAt(s, tag, i, Field(s, tag).value)
  {
    var o := FieldStart(s, tag, 0);
    assert o == Some(i) by { FieldStartAt(s, tag, i); }
  }

  /** The leftmost match is found. */
  lemma FieldStartAt(s: string, tag: string, i: nat)
    requires FieldAt(s, tag, i) && forall k :: 0 <= k < i ==> !FieldAt(s, tag, k)
    ensures FieldStart(s, tag, 0) == Some(i)
  {
  }

  /** A scope no longer than the tag itself holds no field: an empty block yields absent fields. */
  lemma FieldOfShortScope(s: string, tag: string)
    requires |s| <= |OpenTag(tag)|
    ensures Field(s, tag).None?
  {
  }

  /** Trimming a captured value keeps it free of line breaks and `<`. */
  lemma TrimKeepsNoStop(v: string)
    requires NoStop(v)
    ensures NoStop(Trim(v))
  {
    var r := Trim(v);
    forall i | 0 <= i < |r| ensures !IsStop(r[i]) {
      assert r[i] in r;
      TrimKeepsChars(v, r[i]);
    }
  }

  /** `m?.[1]?.trim()`. */
  function TrimmedField(s: string, tag: string): (r: Option<string>)
    ensures r.Some? <==> Field(s, tag).Some?
    ensures r.Some? ==> r.value == Trim(Field(s, tag).value)
    ensures r.Some? ==> NoStop(r.value) && (r.value == [] || (!IsSpace(r.value[0]) && !IsSpace(r.value[|r.value| - 1])))
  {
    match Field(s, tag)
    case None => None
    case Some(v) => TrimKeepsNoStop(v); Some(Trim(v))
  }

  // ---------------------------------------------------------------------------
  // Transaction records: `/<STMTTRN>[\s\S]*?<\/STMTTRN>/gi`
  // ---------------------------------------------------------------------------

  const TrnOpen: string := "<STMTTRN>"
  const TrnClose: string := "</STMTTRN>"

  /** The tags are written in upper case, so ignoring case means searching the upper-cased text for them. */
  lemma TrnTagsUpper()
    ensures ToUpper(TrnOpen) == TrnOpen && ToUpper(TrnClose) == TrnClose
  {
    assert IsUpperCased(TrnOpen) && IsUpperCased(TrnClose);
    UpperCasedIsFixpoint(TrnOpen);
    UpperCasedIsFixpoint(TrnClose);
  }

  /**
   * `[p, e)` is one match in the upper-cased text `u`: the opening tag at `p` and the
   * first closing tag after it, ending at `e`.
   */
  predicate IsBlock(u: string, p: nat, e: nat) {
    && p + |TrnOpen| + |TrnClose| <= e <= |u|
    && OccursAt(u, TrnOpen, p)
    && OccursAt(u, TrnClose, e - |TrnClose|)
    && forall q :: p + |TrnOpen| <= q < e - |TrnClose| ==> !OccursAt(u, TrnClose, q)
  }

  /** A match can start at `p`: an opening tag with a closing tag somewhere after it. */
  ghost predicate MatchableAt(u: string, p: nat) {
    OccursAt(u, TrnOpen, p) && exists q :: p + |TrnOpen| <= q && OccursAt(u, TrnClose, q)
  }

  /**
   * Every match of the global lazy pattern in the upper-cased text `u` at or after `from`,
   * as `(start, end)` pairs: the search takes the first opening tag, ends the match at the
   * first closing tag after it, and goes on from there.
   */
  function BlockSpans(u: string, from: nat): (r: seq<(nat, nat)>)
    requires from <= |u|
    decreases |u| - from
    ensures forall k :: 0 <= k < |r| ==> from <= r[k].0 < r[k].1 <= |u|
  {
    match IndexOf(u, TrnOpen, from)
    case None => []
    case Some(p) =>
      match IndexOf(u, TrnClose, p + |TrnOpen|)
      case None => []
      case Some(c) => [(p, c + |TrnClose|)] + BlockSpans(u, c + |TrnClose|)
  }

  /** The first match: the first opening tag from `from`, up to the first closing tag after it; the search resumes there. */
  lemma BlockSpansHead(u: string, from: nat)
    requires from <= |u| && |BlockSpans(u, from)| > 0
    ensures var r := BlockSpans(u, from);
            && IsBlock(u, r[0].0, r[0].1)
            && IndexOf(u, TrnOpen, from) == Some(r[0].0)
            && r[1..] == BlockSpans(u, r[0].1)
  {
  }

  /** Each match is a block, and it ends no later than the next one starts. */
  lemma {:induction false} BlockSpansAreBlocks(u: string, from: nat, k: nat)
    requires from <= |u| && k < |BlockSpans(u, from)|
    decreases k
    ensures var r := BlockSpans(u, from);
            && IsBlock(u, r[k].0, r[k].1)
            && (k + 1 < |r| ==> r[k].1 <= r[k + 1].0)
  {
    var r := BlockSpans(u, from);
    BlockSpansHead(u, from);
    if k > 0 {
      BlockSpansAreBlocks(u, r[0].1, k - 1);
      assert r[k] == r[1..][k - 1];
    } else if 1 < |r| {
      assert r[1] == BlockSpans(u, r[0].1)[0];
    }
  }

  /** No opening tag lies before a match and after the previous one (or `from`): matches are leftmost. */
  lemma {:induction false} BlockSpansLeftmost(u: string, from: nat, k: nat, q: nat)
    requires from <= |u| && k < |BlockSpans(u, from)|
    requires (if k == 0 then from else BlockSpans(u, from)[k - 1].1) <= q < BlockSpans(u, from)[k].0
    decreases k
    ensures !OccursAt(u, TrnOpen, q)
  {
    var r := BlockSpans(u, from);
    BlockSpansHead(u, from);
    if k > 0 {
      assert r[k] == r[1..][k - 1];
      if k > 1 { assert r[k - 1] == r[1..][k - 2]; }
      BlockSpansLeftmost(u, r[0].1, k - 1, q);
    }
  }

  /** Nothing matchable is left after the last match (or after `from` when there is none). */
  lemma {:induction false} BlockSpansComplete(u: string, from: nat, q: nat)
    requires from <= |u|
    requires (if |BlockSpans(u, from)| == 0 then from else BlockSpans(u, from)[|BlockSpans(u, from)| - 1].1) <= q
    decreases |u| - from
    ensures !MatchableAt(u, q)
  {
    var r := BlockSpans(u, from);
    if |r| == 0 {
      match IndexOf(u, TrnOpen, from)
      case None =>
      case Some(p) =>
        if OccursAt(u, TrnOpen, q) {
          assert p <= q;
        }
    } else {
      BlockSpansHead(u, from);
      if |r| > 1 { assert r[|r| - 1] == r[1..][|r| - 2]; }
      BlockSpansComplete(u, r[0].1, q);
    }
  }

  /** The matched blocks themselves, cut from the original text: `text.match(…) || []`. */
  function StmtTrnBlocks(scope: string): (r: seq<string>)
    ensures |r| == |BlockSpans(ToUpper(scope), 0)|
    ensures forall k :: 0 <= k < |r| ==>
              r[k] == scope[BlockSpans(ToUpper(scope), 0)[k].0 .. BlockSpans(ToUpper(scope), 0)[k].1]
  {
    var spans := BlockSpans(ToUpper(scope), 0);
    seq(|spans|, k requires 0 <= k < |spans| => scope[spans[k].0 .. spans[k].1])
  }

  /** Every record starts with `<STMTTRN>` and ends with `</STMTTRN>`, in any case. */
  lemma BlocksAreDelimited(scope: string, k: nat)
    requires k < |StmtTrnBlocks(scope)|
    ensures var b := StmtTrnBlocks(scope)[k];
            && |b| >= |TrnOpen| + |TrnClose|
            && ToUpper(b[..|TrnOpen|]) == TrnOpen
            && ToUpper(b[|b| - |TrnClose|..]) == TrnClose
  {
    var u := ToUpper(scope);
    var p, e := BlockSpans(u, 0)[k].0, BlockSpans(u, 0)[k].1;
    assert IsBlock(u, p, e) by { BlockSpansAreBlocks(u, 0, k); }
    BlockEnds(scope, p, e);
  }

  /** The ends of a block cut from the original text upper-case to the tags. */
  lemma BlockEnds(scope: string, p: nat, e: nat)
    requires IsBlock(ToUpper(scope), p, e)
    ensures var b := scope[p..e];
            && |b| >= |TrnOpen| + |TrnClose|
            && ToUpper(b[..|TrnOpen|]) == TrnOpen
            && ToUpper(b[|b| - |TrnClose|..]) == TrnClose
  {
    var b := scope[p..e];
    assert b[..|TrnOpen|] == scope[p..p + |TrnOpen|];
    assert b[|b| - |TrnClose|..] == scope[e - |TrnClose|..e];
    UpperSlice(scope, p, p + |TrnOpen|);
    UpperSlice(scope, e - |TrnClose|, e);
  }

  // ---------------------------------------------------------------------------
  // `parseAsSGML`
  // ---------------------------------------------------------------------------

  /** The value of a transaction's amount: `parseNumber(…) || 0`. */
  function AmountOrZero(v: Option<real>): (a: real)
    ensures v.None? ==> a == 0.0
    ensures v.Some? ==> a == v.value
  {
    match v
    case Some(x) => x
    case None => 0.0
  }

  /** One `<STMTTRN>` block; `freshId` is what `crypto.randomUUID()` would return for it. */
  function ParseTransaction(blk: string, freshId: string): (t: Transaction)
    ensures t.fitId == if Field(blk, "FITID").Some? then Field(blk, "FITID").value else freshId
  {
    Transaction(
      ToUpper(Field(blk, "TRNTYPE").GetOr("")),
      Field(blk, "DTPOSTED").GetOr(""),
      AmountOrZero(ParseNumber(Field(blk, "TRNAMT"))),
      Field(blk, "FITID").GetOr(freshId),
      Field(blk, "NAME"),
      Field(blk, "MEMO"))
  }

  /** How many elements of `xs` satisfy `p`. */
  function CountIf<T>(xs: seq<T>, p: T -> bool): (c: nat)
    ensures c <= |xs|
  {
    if xs == [] then 0 else CountIf(xs[..|xs| - 1], p) + (if p(xs[|xs| - 1]) then 1 else 0)
  }

  /** Counting over a longer prefix counts at least as many, and strictly more past a satisfying element. */
  lemma {:induction false} CountIfMonotone<T>(xs: seq<T>, p: T -> bool, i: nat, j: nat)
    requires i <= j <= |xs|
    decreases j
    ensures CountIf(xs[..i], p) <= CountIf(xs[..j], p)
    ensures i < j && p(xs[i]) ==> CountIf(xs[..i], p) < CountIf(xs[..j], p)
  {
    if i < j {
      assert xs[..j][..j - 1] == xs[..j - 1];
      assert xs[..j][j - 1] == xs[j - 1];
      CountIfMonotone(xs, p, i, j - 1);
    }
  }

  /** A block asks for a generated identifier when it has no `FITID` value. */
  predicate NeedsId(blk: string) {
    Field(blk, "FITID").None?
  }

  /**
   * `stmttrnBlocks.map(…)`: calls of `crypto.randomUUID()` happen in block order, so the
   * block at `k` gets the identifier numbered by how many earlier blocks asked for one.
   */
  function ParseTransactions(blocks: seq<string>, newId: nat -> string): (r: seq<Transaction>)
    ensures |r| == |blocks|
  {
    seq(|blocks|, k requires 0 <= k < |blocks| => ParseTransaction(blocks[k], newId(CountIf(blocks[..k], NeedsId))))
  }

  /** The account container: BANKACCTFROM, else CCACCTFROM, else the empty string. */
  function AccountBlock(text: string): string {
    OrElse(Section(text, "BANKACCTFROM"), OrElse(Section(text, "CCACCTFROM"), ""))
  }

  /** The balance container: LEDGERBAL, else AVAILBAL, else the empty string. */
  function BalanceBlock(text: string): string {
    OrElse(Section(text, "LEDGERBAL"), OrElse(Section(text, "AVAILBAL"), ""))
  }

  /** Where transaction records are searched: the BANKTRANLIST section, else the whole text. */
  function TransactionScope(text: string): string {
    OrElse(Section(text, "BANKTRANLIST"), text)
  }

  /** `parseAsSGML(text)`. */
  function ParseAsSGML(text: string, newId: nat -> string): (r: OFXData)
    ensures |r.transactions| == |StmtTrnBlocks(TransactionScope(text))|
  {
    var acct := AccountBlock(text);
    var bal := BalanceBlock(text);
    var blocks := StmtTrnBlocks(TransactionScope(text));
    OFXData(
      AccountInfo(TrimmedField(acct, "BANKID"), TrimmedField(acct, "ACCTID"), TrimmedField(acct, "ACCTTYPE"),
                  ParseNumber(Field(bal, "BALAMT"))),
      ParseTransactions(blocks, newId))
  }

  /** `parseOFX(text)`: the XML result when there is one, otherwise the SGML result. */
  function ParseOFX(text: string, xml: string -> XmlParse, newId: nat -> string): (r: OFXData)
    ensures xml(text).Parsed? && !xml(text).hasParserError ==> r == xml(text).extracted
    ensures xml(text).Threw? || xml(text).hasParserError ==> r == ParseAsSGML(text, newId)
  {
    match ParseAsXML(xml(text))
    case Some(data) => data
    case None => ParseAsSGML(text, newId)
  }

  // ---------------------------------------------------------------------------
  // Properties of the SGML reading
  // ---------------------------------------------------------------------------

  /** The container names the reading looks for are tag names. */
  lemma ContainerNamesAreTagNames()
    ensures IsTagName("BANKACCTFROM") && IsTagName("CCACCTFROM")
    ensures IsTagName("LEDGERBAL") && IsTagName("AVAILBAL") && IsTagName("BANKTRANLIST")
  {
  }

  /** A found section is never falsy, so `||` falls through exactly when a tag is missing. */
  lemma SectionOrElse(text: string, name: string, b: string)
    requires IsTagName(name)
    ensures OrElse(Section(text, name), b) == if Contains(text, OpenTag(name)) then Section(text, name).value else b
  {
    if Section(text, name).Some? {
      SectionStartsWithOpenTag(text, name);
    }
  }

  /** The account block is the BANKACCTFROM section if present, else CCACCTFROM, else empty. */
  lemma AccountBlockFallback(text: string)
    ensures AccountBlock(text)
         == if Contains(text, OpenTag("BANKACCTFROM")) then Section(text, "BANKACCTFROM").value
            else if Contains(text, OpenTag("CCACCTFROM")) then Section(text, "CCACCTFROM").value
            else ""
  {
    ContainerNamesAreTagNames();
    SectionOrElse(text, "CCACCTFROM", "");
    SectionOrElse(text, "BANKACCTFROM", OrElse(Section(text, "CCACCTFROM"), ""));
  }

  /** The balance block is the LEDGERBAL section if present, else AVAILBAL, else empty. */
  lemma BalanceBlockFallback(text: string)
    ensures BalanceBlock(text)
         == if Contains(text, OpenTag("LEDGERBAL")) then Section(text, "LEDGERBAL").value
            else if Contains(text, OpenTag("AVAILBAL")) then Section(text, "AVAILBAL").value
            else ""
  {
    ContainerNamesAreTagNames();
    SectionOrElse(text, "AVAILBAL", "");
    SectionOrElse(text, "LEDGERBAL", OrElse(Section(text, "AVAILBAL"), ""));
  }

  /** Records are searched in the BANKTRANLIST section when it exists, else in the whole text. */
  lemma TransactionScopeFallback(text: string)
    ensures TransactionScope(text)
         == if Contains(text, OpenTag("BANKTRANLIST")) then Section(text, "BANKTRANLIST").value else text
  {
    ContainerNamesAreTagNames();
    SectionOrElse(text, "BANKTRANLIST", text);
  }

  /** Without an account container the account fields are all absent. */
  lemma NoAccountBlockNoFields(text: string, newId: nat -> string)
    requires !Contains(text, OpenTag("BANKACCTFROM")) && !Contains(text, OpenTag("CCACCTFROM"))
    ensures ParseAsSGML(text, newId).account.bankId.None?
    ensures ParseAsSGML(text, newId).account.accountId.None?
    ensures ParseAsSGML(text, newId).account.accountType.None?
  {
    AccountBlockFallback(text);
  }

  /** Without a balance container the balance is absent. */
  lemma NoBalanceBlockNoBalance(text: string, newId: nat -> string)
    requires !Contains(text, OpenTag("LEDGERBAL")) && !Contains(text, OpenTag("AVAILBAL"))
    ensures ParseAsSGML(text, newId).account.balance.None?
  {
    BalanceBlockFallback(text);
  }

  /**
   * The defaults of one record: a missing type or date is `""`, the type is upper-cased, a
   * missing or unreadable amount is 0, a missing FITID is the supplied fresh identifier, and
   * a missing name or memo is absent.
   */
  lemma ParseTransactionDefaults(b: string, freshId: string)
    ensures var t := ParseTransaction(b, freshId);
            && (Field(b, "TRNTYPE").None? ==> t.trnType == "")
            && (Field(b, "TRNTYPE").Some? ==> t.trnType == ToUpper(Field(b, "TRNTYPE").value))
            && (Field(b, "DTPOSTED").None? ==> t.dtPosted == "")
            && (Field(b, "DTPOSTED").Some? ==> t.dtPosted == Field(b, "DTPOSTED").value)
            && (ParseNumber(Field(b, "TRNAMT")).None? ==> t.amount == 0.0)
            && (ParseNumber(Field(b, "TRNAMT")).Some? ==> t.amount == ParseNumber(Field(b, "TRNAMT")).value)
            && (Field(b, "FITID").Some? ==> t.fitId == Field(b, "FITID").value)
            && (Field(b, "FITID").None? ==> t.fitId == freshId)
            && t.name == Field(b, "NAME") && t.memo == Field(b, "MEMO")
  {
  }

  /**
   * One transaction per record, in document order, each read from its own block only; the
   * record at `k` is offered the identifier numbered by how many earlier records lacked a FITID.
   */
  lemma TransactionsFollowBlocks(text: string, newId: nat -> string, k: nat)
    requires k < |StmtTrnBlocks(TransactionScope(text))|
    ensures |ParseAsSGML(text, newId).transactions| == |StmtTrnBlocks(TransactionScope(text))|
    ensures var blocks := StmtTrnBlocks(TransactionScope(text));
            ParseAsSGML(text, newId).transactions[k]
              == ParseTransaction(blocks[k], newId(CountIf(blocks[..k], NeedsId)))
  {
  }

  /** Upper-casing keeps a string free of line breaks and `<`. */
  lemma UpperKeepsNoStop(v: string)
    requires NoStop(v)
    ensures NoStop(ToUpper(v)) && IsUpperCased(ToUpper(v))
  {
    UpperIsUpperCased(v);
    forall i | 0 <= i < |v| ensures !IsStop(ToUpper(v)[i]) { assert !IsStop(v[i]); }
  }

  /** The shape every SGML transaction has: upper-cased single-line type and date, non-empty name and memo. */
  lemma TransactionShape(text: string, newId: nat -> string, k: nat)
    requires k < |ParseAsSGML(text, newId).transactions|
    ensures var t := ParseAsSGML(text, newId).transactions[k];
            && IsUpperCased(t.trnType) && NoStop(t.trnType) && NoStop(t.dtPosted)
            && (t.name.Some? ==> t.name.value != "" && NoStop(t.name.value))
            && (t.memo.Some? ==> t.memo.value != "" && NoStop(t.memo.value))
  {
    var blocks := StmtTrnBlocks(TransactionScope(text));
    TransactionsFollowBlocks(text, newId, k);
    ParseTransactionDefaults(blocks[k], newId(CountIf(blocks[..k], NeedsId)));
    UpperKeepsNoStop(Field(blocks[k], "TRNTYPE").GetOr(""));
  }

  /** A transaction's FITID is never empty when the supplier never returns the empty string. */
  lemma FitIdNonEmpty(text: string, newId: nat -> string, k: nat)
    requires forall n :: newId(n) != ""
    requires k < |ParseAsSGML(text, newId).transactions|
    ensures ParseAsSGML(text, newId).transactions[k].fitId != ""
  {
    var blocks := StmtTrnBlocks(TransactionScope(text));
    TransactionsFollowBlocks(text, newId, k);
    ParseTransactionDefaults(blocks[k], newId(CountIf(blocks[..k], NeedsId)));
  }

  /**
   * Generated identifiers do not collide within one parse whenever the supplier never
   * repeats itself: two records without FITID get different identifiers.
   */
  lemma GeneratedIdsDistinct(text: string, newId: nat -> string, i: nat, j: nat)
    requires forall m, n :: m != n ==> newId(m) != newId(n)
    requires i < j < |StmtTrnBlocks(TransactionScope(text))|
    requires NeedsId(StmtTrnBlocks(TransactionScope(text))[i])
    requires NeedsId(StmtTrnBlocks(TransactionScope(text))[j])
    ensures ParseAsSGML(text, newId).transactions[i].fitId != ParseAsSGML(text, newId).transactions[j].fitId
  {
    var blocks := StmtTrnBlocks(TransactionScope(text));
    TransactionsFollowBlocks(text, newId, i);
    TransactionsFollowBlocks(text, newId, j);
    ParseTransactionDefaults(blocks[i], newId(CountIf(blocks[..i], NeedsId)));
    ParseTransactionDefaults(blocks[j], newId(CountIf(blocks[..j], NeedsId)));
    CountIfMonotone(blocks, NeedsId, i, j);
  }

  // ---------------------------------------------------------------------------
  // `formatDateBRL`
  // ---------------------------------------------------------------------------

  /** The input starts with eight digits (`/^(\d{4})(\d{2})(\d{2})/`). */
  predicate HasDatePrefix(raw: string) {
    |raw| >= 8 && AllDigits(raw[..8])
  }

  /** `YYYYMMDD…` becomes `DD/MM/YYYY`; anything else is returned unchanged. */
  function FormatDateBRL(raw: string): (r: string)
    ensures HasDatePrefix(raw) ==> |r| == 10 && r[2] == '/' && r[5] == '/'
    ensures HasDatePrefix(raw) ==> r[..2] == raw[6..8] && r[3..5] == raw[4..6] && r[6..] == raw[..4]
    ensures !HasDatePrefix(raw) ==> r == raw
  {
    if HasDatePrefix(raw) then raw[6..8] + "/" + raw[4..6] + "/" + raw[..4] else raw
  }

  /** Reads `DD/MM/YYYY` back to `YYYYMMDD`. */
  function UnformatDateBRL(d: string): string
    requires |d| == 10
  {
    d[6..] + d[3..5] + d[..2]
  }

  /** A reformatted date determines the eight digits it came from; later characters are ignored. */
  lemma FormatDateRoundTrip(raw: string)
    requires HasDatePrefix(raw)
    ensures UnformatDateBRL(FormatDateBRL(raw)) == raw[..8]
    ensures FormatDateBRL(raw) == FormatDateBRL(raw[..8])
  {
    var r := FormatDateBRL(raw);
    assert raw[..8] == raw[..4] + raw[4..6] + raw[6..8];
    assert raw[..8][..8] == raw[..8];
  }

  lemma FormatDateExamples()
    ensures FormatDateBRL("20240115") == "15/01/2024"
    ensures FormatDateBRL("20240115093000") == "15/01/2024"
    ensures FormatDateBRL("invalid") == "invalid"
  {
    assert FormatDateBRL("20240115") == "15/01/2024" by { assert HasDatePrefix("20240115"); }
    assert FormatDateBRL("20240115093000") == FormatDateBRL("20240115") by {
      assert "20240115093000"[..8] == "20240115";
      FormatDateRoundTrip("20240115093000");
    }
    assert !HasDatePrefix("invalid") by { assert !IsDigit("invalid"[0]); }
  }
}
