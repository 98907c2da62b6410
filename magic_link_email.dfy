/** The magic-link email: HTML escaping of the five special characters, and the choice of the label,
    subject and plain-text body from the property's name and code. The HTML body is reduced to the slots
    that carry data; its styling and fixed copy are presentation. */
module MagicLinkEmail {
  import opened Wrappers
  import opened JsStrings

  /** `s.replace(/c/g, rep)`: every occurrence of the character `c` replaced by `rep`. */
  function ReplaceAll(s: string, c: char, rep: string): (r: string)
    ensures c !in s ==> r == s
    ensures forall i :: 0 <= i < |r| && r[i] == c ==> c in rep
  {
    if s == [] then []
    else (if s[0] == c then rep else [s[0]]) + ReplaceAll(s[1..], c, rep)
  }

  lemma {:induction false} ReplaceAllAppend(a: string, b: string, c: char, rep: string)
    ensures ReplaceAll(a + b, c, rep) == ReplaceAll(a, c, rep) + ReplaceAll(b, c, rep)
  {
    if a == [] {
      assert a + b == b;
    } else {
      assert (a + b)[0] == a[0] && (a + b)[1..] == a[1..] + b;
      ReplaceAllAppend(a[1..], b, c, rep);
    }
  }

  /** `escapeHtml`: the chained replacements, ampersand first. */
  function EscapeHtml(s: string): string {
    ReplaceAll(ReplaceAll(ReplaceAll(ReplaceAll(ReplaceAll(s, '&', "&amp;"), '<', "&lt;"), '>', "&gt;"), '"', "&quot;"), '\'', "&#39;")
  }

  predicate IsSpecial(c: char) {
    c == '&' || c == '<' || c == '>' || c == '"' || c == '\''
  }

  /** The entity each special character becomes, and any other character itself. */
  function EscapeChar(c: char): string {
    match c
    case '&' => "&amp;"
    case '<' => "&lt;"
    case '>' => "&gt;"
    case '"' => "&quot;"
    case '\'' => "&#39;"
    case _ => [c]
  }

  /** Escaping character by character: the reference definition of `escapeHtml`. */
  function EscapeEach(s: string): string {
    if s == [] then [] else EscapeChar(s[0]) + EscapeEach(s[1..])
  }

  lemma EscapeHtmlAppend(a: string, b: string)
    ensures EscapeHtml(a + b) == EscapeHtml(a) + EscapeHtml(b)
  {
    var s1a, s1b := ReplaceAll(a, '&', "&amp;"), ReplaceAll(b, '&', "&amp;");
    ReplaceAllAppend(a, b, '&', "&amp;");
    var s2a, s2b := ReplaceAll(s1a, '<', "&lt;"), ReplaceAll(s1b, '<', "&lt;");
    ReplaceAllAppend(s1a, s1b, '<', "&lt;");
    var s3a, s3b := ReplaceAll(s2a, '>', "&gt;"), ReplaceAll(s2b, '>', "&gt;");
    ReplaceAllAppend(s2a, s2b, '>', "&gt;");
    var s4a, s4b := ReplaceAll(s3a, '"', "&quot;"), ReplaceAll(s3b, '"', "&quot;");
    ReplaceAllAppend(s3a, s3b, '"', "&quot;");
    ReplaceAllAppend(s4a, s4b, '\'', "&#39;");
  }

  lemma ReplaceAllOne(x: char, c: char, rep: string)
    ensures ReplaceAll([x], c, rep) == if x == c then rep else [x]
  {
    assert [x][1..] == [];
  }

  /** The later replacements leave a string without their characters alone. */
  lemma LaterReplacementsKeep(e: string, from: nat)
    requires from <= 4
    requires from <= 1 ==> '<' !in e
    requires from <= 2 ==> '>' !in e
    requires from <= 3 ==> '"' !in e
    requires '\'' !in e
    ensures from == 1 ==> ReplaceAll(ReplaceAll(ReplaceAll(ReplaceAll(e, '<', "&lt;"), '>', "&gt;"), '"', "&quot;"), '\'', "&#39;") == e
    ensures from == 2 ==> ReplaceAll(ReplaceAll(ReplaceAll(e, '>', "&gt;"), '"', "&quot;"), '\'', "&#39;") == e
    ensures from == 3 ==> ReplaceAll(ReplaceAll(e, '"', "&quot;"), '\'', "&#39;") == e
    ensures from == 4 ==> ReplaceAll(e, '\'', "&#39;") == e
  {
  }

  lemma EscapeHtmlChar(c: char)
    ensures EscapeHtml([c]) == EscapeChar(c)
  {
    ReplaceAllOne(c, '&', "&amp;");
    if c == '&' {
      assert "&amp;" == ['&', 'a', 'm', 'p', ';'];
      LaterReplacementsKeep("&amp;", 1);
    } else {
      ReplaceAllOne(c, '<', "&lt;");
      if c == '<' {
        assert "&lt;" == ['&', 'l', 't', ';'];
        LaterReplacementsKeep("&lt;", 2);
      } else {
        ReplaceAllOne(c, '>', "&gt;");
        if c == '>' {
          assert "&gt;" == ['&', 'g', 't', ';'];
          LaterReplacementsKeep("&gt;", 3);
        } else {
          ReplaceAllOne(c, '"', "&quot;");
          if c == '"' {
            assert "&quot;" == ['&', 'q', 'u', 'o', 't', ';'];
            LaterReplacementsKeep("&quot;", 4);
          } else {
            ReplaceAllOne(c, '\'', "&#39;");
          }
        }
      }
    }
  }

  /** The chained replacements escape each character on its own: an entity produced by an earlier
      replacement is never touched by a later one. */
  lemma {:induction false} EscapeHtmlIsPerChar(s: string)
    ensures EscapeHtml(s) == EscapeEach(s)
  {
    if s != [] {
      assert s == [s[0]] + s[1..];
      EscapeHtmlAppend([s[0]], s[1..]);
      EscapeHtmlChar(s[0]);
      EscapeHtmlIsPerChar(s[1..]);
    }
  }

  lemma {:induction false} EscapeEachSafe(s: string)
    ensures forall i :: 0 <= i < |EscapeEach(s)| ==> !IsSpecial(EscapeEach(s)[i]) || EscapeEach(s)[i] == '&'
  {
    if s != [] {
      EscapeEachSafe(s[1..]);
      var head := EscapeChar(s[0]);
      assert forall i :: 0 <= i < |head| ==> !IsSpecial(head[i]) || head[i] == '&';
    }
  }

  /** `s` holds none of `<`, `>`, `"` and `'`. */
  predicate NoMarkup(s: string) {
    forall i :: 0 <= i < |s| ==> s[i] !in "<>\"'"
  }

  /** Escaped text contains none of `<`, `>`, `"` and `'`. */
  lemma EscapeHtmlSafe(s: string)
    ensures NoMarkup(EscapeHtml(s))
  {
    EscapeHtmlIsPerChar(s);
    EscapeEachSafe(s);
  }

  /** Text without special characters is left as it is. */
  lemma {:induction false} EscapeHtmlIdentity(s: string)
    requires forall i :: 0 <= i < |s| ==> !IsSpecial(s[i])
    ensures EscapeHtml(s) == s
  {
    EscapeHtmlIsPerChar(s);
    EscapeEachIdentity(s);
  }

  lemma {:induction false} EscapeEachIdentity(s: string)
    requires forall i :: 0 <= i < |s| ==> !IsSpecial(s[i])
    ensures EscapeEach(s) == s
  {
    if s != [] {
      EscapeEachIdentity(s[1..]);
    }
  }

  /** A decoder of the five entities, scanning from the left. */
  function Unescape(s: string): string
    decreases |s|
  {
    if s == [] then []
    else if StartsWith(s, "&amp;") then "&" + Unescape(s[5..])
    else if StartsWith(s, "&lt;") then "<" + Unescape(s[4..])
    else if StartsWith(s, "&gt;") then ">" + Unescape(s[4..])
    else if StartsWith(s, "&quot;") then "\"" + Unescape(s[6..])
    else if StartsWith(s, "&#39;") then "'" + Unescape(s[5..])
    else [s[0]] + Unescape(s[1..])
  }

  lemma UnescapeChunk(c: char, rest: string)
    ensures Unescape(EscapeChar(c) + rest) == [c] + Unescape(rest)
  {
    var chunk := EscapeChar(c);
    var t := chunk + rest;
    assert t[..|chunk|] == chunk && t[|chunk|..] == rest;
    if !IsSpecial(c) {
      assert t[1..] == rest;
      UnescapePlain(t);
    } else if c == '<' {
      NotPrefix(t, "&amp;", 1);
    } else if c == '>' {
      NotPrefix(t, "&amp;", 1);
      NotPrefix(t, "&lt;", 1);
    } else if c == '"' {
      NotPrefix(t, "&amp;", 1);
      NotPrefix(t, "&lt;", 1);
      NotPrefix(t, "&gt;", 1);
    } else if c == '\'' {
      NotPrefix(t, "&amp;", 1);
      NotPrefix(t, "&lt;", 1);
      NotPrefix(t, "&gt;", 1);
      NotPrefix(t, "&quot;", 1);
    }
  }

  lemma NotPrefix(t: string, p: string, k: nat)
    requires k < |p| && k < |t| && t[k] != p[k]
    ensures !StartsWith(t, p)
  {
    if |p| <= |t| {
      assert t[..|p|][k] == t[k];
    }
  }

  lemma UnescapePlain(t: string)
    requires t != [] && t[0] != '&'
    ensures Unescape(t) == [t[0]] + Unescape(t[1..])
  {
    assert !StartsWith(t, "&amp;") by { assert "&amp;"[0] == '&'; }
    assert !StartsWith(t, "&lt;") by { assert "&lt;"[0] == '&'; }
    assert !StartsWith(t, "&gt;") by { assert "&gt;"[0] == '&'; }
    assert !StartsWith(t, "&quot;") by { assert "&quot;"[0] == '&'; }
    assert !StartsWith(t, "&#39;") by { assert "&#39;"[0] == '&'; }
  }

  /** Decoding the escaped text gives back the original. */
  lemma {:induction false} EscapeHtmlRoundTrip(s: string)
    ensures Unescape(EscapeHtml(s)) == s
  {
    EscapeHtmlIsPerChar(s);
    EscapeEachRoundTrip(s);
  }

  lemma {:induction false} EscapeEachRoundTrip(s: string)
    ensures Unescape(EscapeEach(s)) == s
  {
    if s != [] {
      UnescapeChunk(s[0], EscapeEach(s[1..]));
      EscapeEachRoundTrip(s[1..]);
    }
  }

  const SubjectSuffix: string := " \U{2022} TimeTracker magic link"

  /** `propertyName ? propertyName.trim() : null`. */
  function RawName(propertyName: Option<string>): Option<string> {
    if Truthy(propertyName) then Some(Trim(propertyName.value)) else None
  }

  /** `humanLabelText`: the trimmed name when it is non-empty, else "Property ID " and the code. */
  function TextLabel(propertyName: Option<string>, propertyCode: string): (text: string)
    ensures Truthy(propertyName) && !IsBlank(propertyName.value) ==> text == Trim(propertyName.value)
    ensures !Truthy(propertyName) || IsBlank(propertyName.value) ==> text == "Property ID " + propertyCode
  {
    TrimEmptyIffBlank(propertyName.GetOr(""));
    var raw := RawName(propertyName);
    if Truthy(raw) then raw.value else "Property ID " + propertyCode
  }

  /** `humanLabelHtml`: the escaped name when there is one, else "Property ID " and the escaped code. */
  function HtmlLabel(propertyName: Option<string>, propertyCode: string): string {
    var raw := RawName(propertyName);
    var safeName := if Truthy(raw) then Some(EscapeHtml(raw.value)) else None;
    if Truthy(safeName) then safeName.value else "Property ID " + EscapeHtml(propertyCode)
  }

  function Subject(propertyName: Option<string>, propertyCode: string): string {
    TextLabel(propertyName, propertyCode) + SubjectSuffix
  }

  /** The plain-text body: the raw label, code and link. */
  function Text(propertyName: Option<string>, propertyCode: string, link: string): string {
    TextHeading + TextLabel(propertyName, propertyCode) + CodeLead + propertyCode + LinkLead + link + TextNotice
  }

  const TextHeading: string := "TimeTracker magic link\n\n"
  const CodeLead: string := "\nProperty ID: "
  const LinkLead: string := "\n\nOpen the link: "
  const TextNotice: string :=
    "\n\nThe link expires in 15 minutes and may only be used once. If you did not request it, you can ignore this email."

  lemma EscapeNonEmpty(s: string)
    requires s != []
    ensures EscapeHtml(s) != []
  {
    EscapeHtmlIsPerChar(s);
  }

  /** Text without special characters passes through escaping untouched in front of other text. */
  lemma EscapePlainPrefix(prefix: string, s: string)
    requires forall i :: 0 <= i < |prefix| ==> !IsSpecial(prefix[i])
    ensures EscapeHtml(prefix + s) == prefix + EscapeHtml(s)
  {
    EscapeHtmlAppend(prefix, s);
    EscapeHtmlIdentity(prefix);
  }

  /** The HTML label is the text label, escaped. */
  lemma HtmlLabelIsEscapedText(propertyName: Option<string>, propertyCode: string)
    ensures HtmlLabel(propertyName, propertyCode) == EscapeHtml(TextLabel(propertyName, propertyCode))
  {
    var raw := RawName(propertyName);
    if Truthy(raw) {
      EscapeNonEmpty(raw.value);
    } else {
      EscapePlainPrefix("Property ID ", propertyCode);
    }
  }

  /** The places in the HTML body that carry data: the `<title>`, the kiosk line, the code badge, the
      two link occurrences (as `href` and as text) and the footer label. */
  datatype HtmlSlots = HtmlSlots(title: string, kiosk: string, badge: string, link: string, footer: string)

  /** The kiosk line: the escaped name and " kiosk", or "Your kiosk" when there is no name. */
  function KioskLine(propertyName: Option<string>): string {
    var raw := RawName(propertyName);
    var safeName := if Truthy(raw) then Some(EscapeHtml(raw.value)) else None;
    if Truthy(safeName) then safeName.value + " kiosk" else "Your kiosk"
  }

  /** The slots as the template fills them: the title takes the subject unescaped. */
  function HtmlSlotsAsWritten(propertyName: Option<string>, propertyCode: string, link: string): HtmlSlots {
    HtmlSlots(
      Subject(propertyName, propertyCode),
      KioskLine(propertyName),
      "Property ID: " + EscapeHtml(propertyCode),
      EscapeHtml(link),
      HtmlLabel(propertyName, propertyCode))
  }

  /** A property name holding markup reaches the `<title>` as markup. */
  lemma TitleCarriesRawMarkup()
    ensures '<' in HtmlSlotsAsWritten(Some("<b>"), "X1", "https://t").title
  {
    assert Trim("<b>") == "<b>";
    assert Subject(Some("<b>"), "X1")[0] == '<';
  }

  /** The slots with the title escaped like every other slot. */
  function HtmlSlotsEscaped(propertyName: Option<string>, propertyCode: string, link: string): HtmlSlots {
    HtmlSlots(
      EscapeHtml(Subject(propertyName, propertyCode)),
      KioskLine(propertyName),
      "Property ID: " + EscapeHtml(propertyCode),
      EscapeHtml(link),
      HtmlLabel(propertyName, propertyCode))
  }

  lemma PlainSuffix(s: string, suffix: string)
    requires forall i :: 0 <= i < |suffix| ==> !IsSpecial(suffix[i])
    ensures EscapeHtml(s) + suffix == EscapeHtml(s + suffix)
  {
    EscapeHtmlAppend(s, suffix);
    EscapeHtmlIdentity(suffix);
  }

  lemma KioskSuffixPlain()
    ensures forall i :: 0 <= i < |" kiosk"| ==> !IsSpecial(" kiosk"[i])
  {
  }

  lemma KioskSlotSafe(propertyName: Option<string>)
    ensures NoMarkup(KioskLine(propertyName))
  {
    var raw := RawName(propertyName);
    if Truthy(raw) {
      EscapeNonEmpty(raw.value);
      KioskSuffixPlain();
      PlainSuffix(raw.value, " kiosk");
      EscapeHtmlSafe(raw.value + " kiosk");
    } else {
      EscapeHtmlIdentity("Your kiosk");
      EscapeHtmlSafe("Your kiosk");
    }
  }

  lemma BadgeSlotSafe(propertyCode: string)
    ensures NoMarkup("Property ID: " + EscapeHtml(propertyCode))
  {
    var prefix := "Property ID: ";
    assert forall i :: 0 <= i < |prefix| ==> !IsSpecial(prefix[i]);
    EscapePlainPrefix(prefix, propertyCode);
    EscapeHtmlSafe(prefix + propertyCode);
  }

  /** With the title escaped, no slot can carry `<`, `>`, `"` or `'` from the name, code or link. */
  lemma EscapedSlotsHaveNoMarkup(propertyName: Option<string>, propertyCode: string, link: string)
    ensures var h := HtmlSlotsEscaped(propertyName, propertyCode, link);
      NoMarkup(h.title) && NoMarkup(h.kiosk) && NoMarkup(h.badge) && NoMarkup(h.link) && NoMarkup(h.footer)
  {
    EscapeHtmlSafe(Subject(propertyName, propertyCode));
    KioskSlotSafe(propertyName);
    BadgeSlotSafe(propertyCode);
    EscapeHtmlSafe(link);
    HtmlLabelIsEscapedText(propertyName, propertyCode);
    EscapeHtmlSafe(TextLabel(propertyName, propertyCode));
  }

  /** What `buildMagicLinkEmail` returns, with the HTML reduced to its slots. */
  datatype Email = Email(subject: string, html: HtmlSlots, text: string)

  /** `buildMagicLinkEmail` as written: the HTML title takes the raw subject; every other HTML slot is
      escaped. */
  function BuildMagicLinkEmail(propertyName: Option<string>, propertyCode: string, link: string): (e: Email)
    ensures e.subject == TextLabel(propertyName, propertyCode) + SubjectSuffix
    ensures e.html == HtmlSlotsAsWritten(propertyName, propertyCode, link) && e.html.title == e.subject
    ensures e.html.footer == EscapeHtml(TextLabel(propertyName, propertyCode))
    ensures e.html.link == EscapeHtml(link) && e.html.badge == "Property ID: " + EscapeHtml(propertyCode)
  {
    HtmlLabelIsEscapedText(propertyName, propertyCode);
    Email(Subject(propertyName, propertyCode), HtmlSlotsAsWritten(propertyName, propertyCode, link),
          Text(propertyName, propertyCode, link))
  }

  /** The pieces of a concatenation can be cut back out at their offsets. */
  lemma ConcatPieces<T>(a: seq<T>, b: seq<T>, c: seq<T>, d: seq<T>, e: seq<T>, f: seq<T>, g: seq<T>)
    ensures var s := a + b + c + d + e + f + g;
      var k := |a| + |b| + |c|;
      var m := k + |d| + |e|;
      && |s| == m + |f| + |g|
      && s[..|a|] == a && s[|a|..|a| + |b|] == b && s[k..k + |d|] == d && s[m..m + |f|] == f && s[m + |f|..] == g
  {
    var s := a + b + c + d + e + f + g;
    var ab, abcde := a + b, a + b + c + d + e;
    assert s == abcde + f + g;
    assert s[..|abcde|] == abcde && abcde[..|ab|] == ab;
    assert abcde == (a + b + c) + d + e;
  }

  /** The plain-text body opens with the heading and the text label, and carries the code and the link
      unescaped after their lead-ins, before the closing notice. */
  lemma TextCarriesRawCodeAndLink(propertyName: Option<string>, propertyCode: string, link: string)
    ensures var text := BuildMagicLinkEmail(propertyName, propertyCode, link).text;
      var humanLabel := TextLabel(propertyName, propertyCode);
      var k := |TextHeading| + |humanLabel| + |CodeLead|;
      var m := k + |propertyCode| + |LinkLead|;
      && |text| == m + |link| + |TextNotice|
      && text[..|TextHeading|] == TextHeading
      && text[|TextHeading|..|TextHeading| + |humanLabel|] == humanLabel
      && text[k..k + |propertyCode|] == propertyCode
      && text[m..m + |link|] == link
      && text[m + |link|..] == TextNotice
  {
    ConcatPieces(TextHeading, TextLabel(propertyName, propertyCode), CodeLead, propertyCode, LinkLead, link, TextNotice);
  }
}
