/** Pure text transforms applied to chat text before it is stored:
    HTML escaping, emote substitution and URL linkification
    (escapeHTML and formatMessage in server.js). */
module Markup {

  /** Left-to-right, non-overlapping replacement of every occurrence of a
      non-empty literal pattern, as String.prototype.replace does with a
      global regular expression whose source is that literal. */
  function ReplaceAll(s: string, pat: string, rep: string): (r: string)
    requires |pat| > 0
    ensures pat[0] !in s ==> r == s
    ensures |pat| == 1 && pat[0] !in rep ==> pat[0] !in r
    decreases |s|
  {
    if s == [] then []
    else if pat <= s then rep + ReplaceAll(s[|pat|..], pat, rep)
    else [s[0]] + ReplaceAll(s[1..], pat, rep)
  }

  /** Replacement of one character by a string, character by character:
      the reference meaning of ReplaceAll for a one-character pattern. */
  function Subst(s: string, c: char, rep: string): string
  {
    if s == [] then [] else (if s[0] == c then rep else [s[0]]) + Subst(s[1..], c, rep)
  }

  lemma {:induction false} ReplaceCharIsSubst(s: string, c: char, rep: string)
    ensures ReplaceAll(s, [c], rep) == Subst(s, c, rep)
    decreases |s|
  {
    if s != [] {
      ReplaceCharIsSubst(s[1..], c, rep);
      assert [c] <= s <==> s[0] == c;
      assert s[|[c]|..] == s[1..];
    }
  }

  lemma {:induction false} SubstAppend(a: string, b: string, c: char, rep: string)
    ensures Subst(a + b, c, rep) == Subst(a, c, rep) + Subst(b, c, rep)
    decreases |a|
  {
    if a == [] {
      assert a + b == b;
    } else {
      assert (a + b)[1..] == a[1..] + b;
      SubstAppend(a[1..], b, c, rep);
    }
  }

  lemma {:induction false} SubstAbsent(s: string, c: char, rep: string)
    requires c !in s
    ensures Subst(s, c, rep) == s
    decreases |s|
  {
    if s != [] {
      SubstAbsent(s[1..], c, rep);
    }
  }

  lemma SubstOne(x: char, c: char, rep: string)
    ensures Subst([x], c, rep) == if x == c then rep else [x]
  {
    assert [x][1..] == [];
    var head := if x == c then rep else [x];
    assert head + [] == head;
  }

  /** A prefix without the pattern's first character is copied unchanged. */
  lemma {:induction false} ReplaceAfterPlainPrefix(a: string, b: string, pat: string, rep: string)
    requires |pat| > 0 && pat[0] !in a
    ensures ReplaceAll(a + b, pat, rep) == a + ReplaceAll(b, pat, rep)
    decreases |a|
  {
    if a == [] {
      assert a + b == b;
    } else {
      assert (a + b)[0] == a[0];
      assert !(pat <= a + b);
      assert (a + b)[1..] == a[1..] + b;
      ReplaceAfterPlainPrefix(a[1..], b, pat, rep);
    }
  }

  /** A character in neither the input nor the replacement is not in the output. */
  lemma {:induction false} ReplaceKeepsAbsent(s: string, pat: string, rep: string, c: char)
    requires |pat| > 0 && c !in s && c !in rep
    ensures c !in ReplaceAll(s, pat, rep)
    decreases |s|
  {
    if s != [] {
      if pat <= s {
        ReplaceKeepsAbsent(s[|pat|..], pat, rep, c);
      } else {
        ReplaceKeepsAbsent(s[1..], pat, rep, c);
      }
    }
  }

  /* ---------- escapeHTML ---------- */

  /** escapeHTML: three global replacements, '&' first. */
  function EscapeHTML(s: string): (r: string)
    ensures '<' !in r && '>' !in r
    ensures '&' !in s && '<' !in s && '>' !in s ==> r == s
  {
    var amp := ReplaceAll(s, "&", "&amp;");
    var lt := ReplaceAll(amp, "<", "&lt;");
    ReplaceKeepsAbsent(lt, ">", "&gt;", '<');
    ReplaceAll(lt, ">", "&gt;")
  }

  /** The entity a single character escapes to. */
  function Entity(c: char): string
  {
    if c == '&' then "&amp;" else if c == '<' then "&lt;" else if c == '>' then "&gt;" else [c]
  }

  /** Reference definition: escape every character independently. */
  function EscapeEach(s: string): string
  {
    if s == [] then [] else Entity(s[0]) + EscapeEach(s[1..])
  }

  /** The three chained passes of EscapeHTML, each written as Subst. */
  function EscapeChain(s: string): string
  {
    Subst(Subst(Subst(s, '&', "&amp;"), '<', "&lt;"), '>', "&gt;")
  }

  lemma EscapeChainAppend(a: string, b: string)
    ensures EscapeChain(a + b) == EscapeChain(a) + EscapeChain(b)
  {
    SubstAppend(a, b, '&', "&amp;");
    SubstAppend(Subst(a, '&', "&amp;"), Subst(b, '&', "&amp;"), '<', "&lt;");
    SubstAppend(Subst(Subst(a, '&', "&amp;"), '<', "&lt;"),
                Subst(Subst(b, '&', "&amp;"), '<', "&lt;"), '>', "&gt;");
  }

  lemma EscapeChainChar(c: char)
    ensures EscapeChain([c]) == Entity(c)
  {
    SubstOne(c, '&', "&amp;");
    if c == '&' {
      SubstAbsent("&amp;", '<', "&lt;");
      SubstAbsent("&amp;", '>', "&gt;");
    } else {
      SubstOne(c, '<', "&lt;");
      if c == '<' {
        SubstAbsent("&lt;", '>', "&gt;");
      } else {
        SubstOne(c, '>', "&gt;");
      }
    }
  }

  /** EscapeHTML agrees with escaping each character on its own: the order
      of the three passes ('&' first) never escapes an entity twice. */
  lemma {:induction false} EscapeHTMLIsEscapeEach(s: string)
    ensures EscapeHTML(s) == EscapeEach(s)
    decreases |s|
  {
    var amp := ReplaceAll(s, "&", "&amp;");
    ReplaceCharIsSubst(s, '&', "&amp;");
    ReplaceCharIsSubst(amp, '<', "&lt;");
    ReplaceCharIsSubst(ReplaceAll(amp, "<", "&lt;"), '>', "&gt;");
    assert EscapeHTML(s) == EscapeChain(s);
    EscapeChainEach(s);
  }

  lemma {:induction false} EscapeChainEach(s: string)
    ensures EscapeChain(s) == EscapeEach(s)
    decreases |s|
  {
    if s != [] {
      assert s == [s[0]] + s[1..];
      EscapeChainAppend([s[0]], s[1..]);
      EscapeChainChar(s[0]);
      EscapeChainEach(s[1..]);
    }
  }

  /** Inverse of escaping: decode the three entities EscapeHTML produces. */
  function Unescape(s: string): string
    decreases |s|
  {
    if s == [] then []
    else if "&amp;" <= s then "&" + Unescape(s[5..])
    else if "&lt;" <= s then "<" + Unescape(s[4..])
    else if "&gt;" <= s then ">" + Unescape(s[4..])
    else [s[0]] + Unescape(s[1..])
  }

  /** Escaping loses no information: unescaping gives back the input. */
  lemma {:induction false} EscapeRoundTrip(s: string)
    ensures Unescape(EscapeHTML(s)) == s
  {
    EscapeHTMLIsEscapeEach(s);
    UnescapeEach(s);
  }

  lemma {:induction false} UnescapeEach(s: string)
    ensures Unescape(EscapeEach(s)) == s
    decreases |s|
  {
    if s != [] {
      var e := EscapeEach(s);
      var rest := EscapeEach(s[1..]);
      assert e == Entity(s[0]) + rest;
      UnescapeEach(s[1..]);
      var c := s[0];
      if c == '&' {
        assert "&amp;" <= e;
        assert e[5..] == rest;
      } else if c == '<' {
        assert !("&amp;" <= e) by { assert e[1] == 'l'; }
        assert "&lt;" <= e;
        assert e[4..] == rest;
      } else if c == '>' {
        assert !("&amp;" <= e) by { assert e[1] == 'g'; }
        assert !("&lt;" <= e) by { assert e[1] == 'g'; }
        assert "&gt;" <= e;
        assert e[4..] == rest;
      } else {
        assert e[0] == c;
        assert e[1..] == rest;
      }
    }
  }

  /* ---------- emotes ---------- */

  const SMILE := "<img src=\"/emotes/smile.gif\">"
  const SAD := "<img src=\"/emotes/sad.gif\">"
  const WINK := "<img src=\"/emotes/wink.gif\">"
  const GRIN := "<img src=\"/emotes/grin.gif\">"

  /** The four emote replacements, in source order. */
  function Emotes(s: string): string
  {
    var a := ReplaceAll(s, ":)", SMILE);
    var b := ReplaceAll(a, ":(", SAD);
    var c := ReplaceAll(b, ";)", WINK);
    ReplaceAll(c, ":D", GRIN)
  }

  /** The emote codes read in one left-to-right pass: each ":)", ":(", ";)"
      and ":D" becomes its image and every other character is kept. */
  function EmoteEach(s: string): string
    decreases |s|
  {
    if s == [] then []
    else if |s| >= 2 && s[0] == ':' && s[1] == ')' then SMILE + EmoteEach(s[2..])
    else if |s| >= 2 && s[0] == ':' && s[1] == '(' then SAD + EmoteEach(s[2..])
    else if |s| >= 2 && s[0] == ';' && s[1] == ')' then WINK + EmoteEach(s[2..])
    else if |s| >= 2 && s[0] == ':' && s[1] == 'D' then GRIN + EmoteEach(s[2..])
    else [s[0]] + EmoteEach(s[1..])
  }

  /** No two codes overlap and no image holds a ':' or ';', so the four
      passes of Emotes amount to the single pass EmoteEach. */
  lemma {:induction false} EmotesIsEmoteEach(s: string)
    ensures Emotes(s) == EmoteEach(s)
    decreases |s|
  {
    if s == [] {
    } else if |s| >= 2 && s[0] == ':' && s[1] == ')' {
      SmileFront(s);
      EmotesIsEmoteEach(s[2..]);
    } else if |s| >= 2 && s[0] == ':' && s[1] == '(' {
      SadFront(s);
      EmotesIsEmoteEach(s[2..]);
    } else if |s| >= 2 && s[0] == ';' && s[1] == ')' {
      WinkFront(s);
      EmotesIsEmoteEach(s[2..]);
    } else if |s| >= 2 && s[0] == ':' && s[1] == 'D' {
      GrinFront(s);
      EmotesIsEmoteEach(s[2..]);
    } else {
      PlainFront(s);
      EmotesIsEmoteEach(s[1..]);
    }
  }

  /** An image tag: it contains neither ':' nor ';' and starts with '<'. */
  predicate PlainImage(tag: string)
  {
    ':' !in tag && ';' !in tag && tag != [] && tag[0] == '<'
  }

  lemma SmilePlain() ensures PlainImage(SMILE) {}
  lemma SadPlain() ensures PlainImage(SAD) {}
  lemma WinkPlain() ensures PlainImage(WINK) {}
  lemma GrinPlain() ensures PlainImage(GRIN) {}

  lemma ImagesPlain()
    ensures PlainImage(SMILE) && PlainImage(SAD) && PlainImage(WINK) && PlainImage(GRIN)
  {
    SmilePlain();
    SadPlain();
    WinkPlain();
    GrinPlain();
  }

  /** A pattern at the front is replaced there. */
  lemma ReplaceMatch(x: string, pat: string, rep: string)
    requires |pat| > 0
    ensures ReplaceAll(pat + x, pat, rep) == rep + ReplaceAll(x, pat, rep)
  {
    assert pat <= pat + x;
    assert (pat + x)[|pat|..] == x;
  }

  /** A character that does not start a two-character pattern is kept. */
  lemma ReplaceNoMatch(c: char, x: string, pat: string, rep: string)
    requires |pat| == 2 && !(c == pat[0] && x != [] && x[0] == pat[1])
    ensures ReplaceAll([c] + x, pat, rep) == [c] + ReplaceAll(x, pat, rep)
  {
    var s := [c] + x;
    assert s[0] == c && s[1..] == x;
    assert !(pat <= s);
  }

  /** A two-character code other than `pat` whose second character cannot
      start `pat` passes through a replacement of `pat`. */
  lemma ReplaceSkipsCode(q: string, x: string, pat: string, rep: string)
    requires |pat| == 2 && |q| == 2 && q != pat && q[1] != pat[0]
    ensures ReplaceAll(q + x, pat, rep) == q + ReplaceAll(x, pat, rep)
  {
    PairCons(q, x);
    ReplaceNoMatch(q[1], x, pat, rep);
    ReplaceNoMatch(q[0], [q[1]] + x, pat, rep);
    PairCons(q, ReplaceAll(x, pat, rep));
  }

  lemma PairCons(q: string, y: string)
    requires |q| == 2
    ensures q + y == [q[0]] + ([q[1]] + y)
  {
    assert q == [q[0]] + [q[1]];
  }

  /** A replacement keeps a non-empty text non-empty and its first character
      is the text's or the replacement's. */
  lemma ReplaceHead(s: string, pat: string, rep: string)
    requires |pat| > 0 && s != [] && rep != []
    ensures var r := ReplaceAll(s, pat, rep); r != [] && (r[0] == s[0] || r[0] == rep[0])
  {
  }

  lemma SmileFront(s: string)
    requires |s| >= 2 && s[0] == ':' && s[1] == ')'
    ensures Emotes(s) == SMILE + Emotes(s[2..])
  {
    SmilePlain();
    var t := s[2..];
    assert s == ":)" + t;
    ReplaceMatch(t, ":)", SMILE);
    var a := ReplaceAll(t, ":)", SMILE);
    ReplaceAfterPlainPrefix(SMILE, a, ":(", SAD);
    var b := ReplaceAll(a, ":(", SAD);
    ReplaceAfterPlainPrefix(SMILE, b, ";)", WINK);
    var c := ReplaceAll(b, ";)", WINK);
    ReplaceAfterPlainPrefix(SMILE, c, ":D", GRIN);
  }

  lemma SadFront(s: string)
    requires |s| >= 2 && s[0] == ':' && s[1] == '('
    ensures Emotes(s) == SAD + Emotes(s[2..])
  {
    SadPlain();
    var t := s[2..];
    assert s == ":(" + t;
    ReplaceSkipsCode(":(", t, ":)", SMILE);
    var a := ReplaceAll(t, ":)", SMILE);
    ReplaceMatch(a, ":(", SAD);
    var b := ReplaceAll(a, ":(", SAD);
    ReplaceAfterPlainPrefix(SAD, b, ";)", WINK);
    var c := ReplaceAll(b, ";)", WINK);
    ReplaceAfterPlainPrefix(SAD, c, ":D", GRIN);
  }

  lemma WinkFront(s: string)
    requires |s| >= 2 && s[0] == ';' && s[1] == ')'
    ensures Emotes(s) == WINK + Emotes(s[2..])
  {
    WinkPlain();
    var t := s[2..];
    assert s == ";)" + t;
    ReplaceSkipsCode(";)", t, ":)", SMILE);
    var a := ReplaceAll(t, ":)", SMILE);
    ReplaceSkipsCode(";)", a, ":(", SAD);
    var b := ReplaceAll(a, ":(", SAD);
    ReplaceMatch(b, ";)", WINK);
    var c := ReplaceAll(b, ";)", WINK);
    ReplaceAfterPlainPrefix(WINK, c, ":D", GRIN);
  }

  lemma GrinFront(s: string)
    requires |s| >= 2 && s[0] == ':' && s[1] == 'D'
    ensures Emotes(s) == GRIN + Emotes(s[2..])
  {
    var t := s[2..];
    assert s == ":D" + t;
    ReplaceSkipsCode(":D", t, ":)", SMILE);
    var a := ReplaceAll(t, ":)", SMILE);
    ReplaceSkipsCode(":D", a, ":(", SAD);
    var b := ReplaceAll(a, ":(", SAD);
    ReplaceSkipsCode(":D", b, ";)", WINK);
    var c := ReplaceAll(b, ";)", WINK);
    ReplaceMatch(c, ":D", GRIN);
  }

  /** A character that starts no code is kept, because the passes before
      each one leave either the next character or an image ('<') behind it. */
  lemma PlainFront(s: string)
    requires s != []
    requires !(|s| >= 2 && s[0] == ':' && (s[1] == ')' || s[1] == '(' || s[1] == 'D'))
    requires !(|s| >= 2 && s[0] == ';' && s[1] == ')')
    ensures Emotes(s) == [s[0]] + Emotes(s[1..])
  {
    ImagesPlain();
    var c, t := s[0], s[1..];
    assert s == [c] + t;
    var a := ReplaceAll(t, ":)", SMILE);
    var b := ReplaceAll(a, ":(", SAD);
    var d := ReplaceAll(b, ";)", WINK);
    if t != [] {
      ReplaceHead(t, ":)", SMILE);
      ReplaceHead(a, ":(", SAD);
      ReplaceHead(b, ";)", WINK);
    }
    ReplaceNoMatch(c, t, ":)", SMILE);
    ReplaceNoMatch(c, a, ":(", SAD);
    ReplaceNoMatch(c, b, ";)", WINK);
    ReplaceNoMatch(c, d, ":D", GRIN);
  }

  /* ---------- URL linkification ---------- */

  /** The characters JavaScript's \s class matches (WhiteSpace and LineTerminator). */
  predicate IsSpace(c: char)
  {
    c == ' ' || c == '\t' || c == '\n' || c == '\U{000B}' || c == '\U{000C}' || c == '\r'
    || c == '\U{00A0}' || c == '\U{1680}' || ('\U{2000}' <= c <= '\U{200A}')
    || c == '\U{2028}' || c == '\U{2029}' || c == '\U{202F}' || c == '\U{205F}'
    || c == '\U{3000}' || c == '\U{FEFF}'
  }

  /** Length of the longest prefix of s without white space. */
  function NonSpaceRun(s: string): (n: nat)
    ensures n <= |s|
    ensures forall i :: 0 <= i < n ==> !IsSpace(s[i])
    ensures n < |s| ==> IsSpace(s[n])
  {
    if s == [] || IsSpace(s[0]) then 0 else 1 + NonSpaceRun(s[1..])
  }

  /** Length of the scheme "http://" or "https://" that s starts with, or 0. */
  function SchemeLength(s: string): nat
  {
    if "https://" <= s then 8 else if "http://" <= s then 7 else 0
  }

  /** Length of the match of /https?:\/\/[^\s]+/ at the start of s, or 0 when
      the regular expression does not match there. */
  function UrlLength(s: string): (n: nat)
    ensures n <= |s|
    ensures n > 0 ==> ':' in s
    ensures n > 0 <==> SchemeLength(s) > 0 && SchemeLength(s) < |s| && !IsSpace(s[SchemeLength(s)])
    ensures n > 0 ==> n == |s| || IsSpace(s[n])
    ensures n > 0 ==> SchemeLength(s) < n && forall i :: 0 <= i < n ==> !IsSpace(s[i])
  {
    var k := SchemeLength(s);
    if k > 0 && NonSpaceRun(s[k..]) > 0 then
      assert s[4] == ':' || s[5] == ':';
      k + NonSpaceRun(s[k..])
    else 0
  }

  function LowerAscii(c: char): char
  {
    if 'A' <= c <= 'Z' then (c as int + 32) as char else c
  }

  function LowerAsciiString(s: string): (r: string)
    ensures |r| == |s|
  {
    if s == [] then [] else [LowerAscii(s[0])] + LowerAsciiString(s[1..])
  }

  predicate EndsWith(s: string, suffix: string)
  {
    |suffix| <= |s| && s[|s| - |suffix|..] == suffix
  }

  /** /\.(jpg|jpeg|png|gif)$/i: the URL names an image. */
  predicate IsImageUrl(url: string)
  {
    var l := LowerAsciiString(url);
    EndsWith(l, ".jpg") || EndsWith(l, ".jpeg") || EndsWith(l, ".png") || EndsWith(l, ".gif")
  }

  /** Markup a matched URL is replaced by. */
  function Anchor(url: string): string
  {
    if IsImageUrl(url) then
      "<br><a href=\"" + url + "\" target=\"_blank\"><img src=\"" + url + "\" width=\"150\"></a><br>"
    else
      "<a href=\"" + url + "\" target=\"_blank\">" + url + "</a>"
  }

  /** Global replacement of /(https?:\/\/[^\s]+)/g with Anchor of the match. */
  function Linkify(s: string): (r: string)
    ensures ':' !in s ==> r == s
    decreases |s|
  {
    if s == [] then []
    else
      var n := UrlLength(s);
      if n > 0 then Anchor(s[..n]) + Linkify(s[n..])
      else [s[0]] + Linkify(s[1..])
  }

  /** Text without an 'h' cannot start a URL, so linkification copies it. */
  lemma {:induction false} LinkifyPlainPrefix(a: string, b: string)
    requires 'h' !in a
    ensures Linkify(a + b) == a + Linkify(b)
    decreases |a|
  {
    if a == [] {
      assert a + b == b;
    } else {
      LinkifyNoUrlHere(a + b);
      ConsAppend(a, b);
      LinkifyPlainPrefix(a[1..], b);
      ConsAppend(a, Linkify(b));
    }
  }

  lemma ConsAppend(x: string, y: string)
    requires x != []
    ensures [x[0]] + (x[1..] + y) == x + y
    ensures (x + y)[0] == x[0] && (x + y)[1..] == x[1..] + y
  {
    assert x == [x[0]] + x[1..];
  }

  lemma LinkifyNoUrlHere(s: string)
    requires s != [] && s[0] != 'h'
    ensures Linkify(s) == [s[0]] + Linkify(s[1..])
  {
    assert UrlLength(s) == 0;
  }

  /** A URL followed by white space becomes one anchor, and the scan goes on
      after it. */
  lemma LinkifyUrlThenRest(u: string, b: string)
    requires UrlLength(u) == |u| > 0
    requires b != [] && IsSpace(b[0])
    ensures Linkify(u + b) == Anchor(u) + Linkify(b)
  {
    UrlStopsAtSpace(u, b);
    LinkifyUrlHere(u + b, |u|);
    assert (u + b)[..|u|] == u && (u + b)[|u|..] == b;
  }

  lemma LinkifyUrlHere(s: string, n: nat)
    requires n > 0 && UrlLength(s) == n
    ensures Linkify(s) == Anchor(s[..n]) + Linkify(s[n..])
  {
  }

  lemma UrlStopsAtSpace(u: string, b: string)
    requires UrlLength(u) == |u| > 0
    requires b != [] && IsSpace(b[0])
    ensures UrlLength(u + b) == |u|
  {
    var k := SchemeLength(u);
    SchemeOfLonger(u, b);
    assert (u + b)[k..] == u[k..] + b;
    NonSpaceRunStops(u[k..], b);
  }

  lemma SchemeOfLonger(u: string, b: string)
    requires SchemeLength(u) > 0 && SchemeLength(u) < |u|
    ensures SchemeLength(u + b) == SchemeLength(u)
  {
    if "https://" <= u {
      assert "https://" <= u + b;
    } else {
      assert "http://" <= u + b;
    }
  }

  lemma {:induction false} NonSpaceRunStops(x: string, b: string)
    requires NonSpaceRun(x) == |x|
    requires b != [] && IsSpace(b[0])
    ensures NonSpaceRun(x + b) == |x|
    decreases |x|
  {
    if x == [] {
      assert x + b == b;
    } else {
      assert (x + b)[1..] == x[1..] + b;
      NonSpaceRunStops(x[1..], b);
    }
  }

  /* ---------- formatMessage ---------- */

  /** formatMessage: escape, then emotes, then links. */
  function FormatMessage(text: string): string
  {
    Linkify(Emotes(EscapeHTML(text)))
  }

  /** formatMessage is three single left-to-right passes: each character
      escaped on its own, each emote code at most once, then each URL. */
  lemma FormatMessageIsEach(text: string)
    ensures FormatMessage(text) == Linkify(EmoteEach(EscapeEach(text)))
  {
    EscapeHTMLIsEscapeEach(text);
    EmotesIsEmoteEach(EscapeEach(text));
  }

  /** Text free of the characters any step reacts to is stored verbatim. */
  lemma FormatPlain(text: string)
    requires forall c :: c in "&<>:;" ==> c !in text
    ensures FormatMessage(text) == text
  {
    assert '&' in "&<>:;" && '<' in "&<>:;" && '>' in "&<>:;";
    assert ':' in "&<>:;" && ';' in "&<>:;";
    assert EscapeHTML(text) == text;
    ImagesPlain();
  }

  /** Escaping runs before emote substitution, so the ';' that ends "&gt;"
      combines with a following ')' into the wink emote: ">)" is shown as
      "&gt" followed by the wink image. */
  lemma EscapedAngleBecomesWink()
    ensures FormatMessage(">)") == "&gt" + WINK
  {
    EscapeAngleParen();
    WinkAfterPlainText("&gt");
    WinkPlain();
    FormatAfterEscape(">)", "&gt" + ";)", "&gt" + WINK);
  }

  /** The steps of formatMessage, one result at a time. */
  lemma FormatAfterEscape(text: string, escaped: string, emoted: string)
    requires EscapeHTML(text) == escaped && Emotes(escaped) == emoted && ':' !in emoted
    ensures FormatMessage(text) == emoted
  {
  }

  lemma EscapeAngleParen()
    ensures EscapeHTML(">)") == "&gt" + ";)"
  {
    EscapeHTMLIsEscapeEach(">)");
    assert ">)"[1..] == ")";
    assert ")"[1..] == [];
  }

  /** ";)" after text with no ':' or ';' becomes the wink emote. */
  lemma WinkAfterPlainText(a: string)
    requires ':' !in a && ';' !in a
    ensures Emotes(a + ";)") == a + WINK
  {
    assert ':' !in a + ";)";
    WinkAfterPrefix(a);
    WinkPlain();
    assert ':' !in a + WINK;
  }

  lemma WinkAfterPrefix(a: string)
    requires ';' !in a
    ensures ReplaceAll(a + ";)", ";)", WINK) == a + WINK
  {
    ReplaceAfterPlainPrefix(a, ";)", ";)", WINK);
    assert ReplaceAll(";)", ";)", WINK) == WINK + ReplaceAll([], ";)", WINK);
  }

  /** A message that is one URL and nothing else becomes one anchor for the
      whole of it. */
  lemma LinkifyWholeUrl(s: string)
    requires SchemeLength(s) > 0 && |s| > SchemeLength(s)
    requires forall i :: 0 <= i < |s| ==> !IsSpace(s[i])
    ensures Linkify(s) == Anchor(s)
  {
    UrlSpansNonSpace(s);
    LinkifySingleUrl(s);
  }

  lemma UrlSpansNonSpace(s: string)
    requires SchemeLength(s) > 0 && |s| > SchemeLength(s)
    requires forall i :: 0 <= i < |s| ==> !IsSpace(s[i])
    ensures UrlLength(s) == |s|
  {
    NoSpaceRunAll(s[SchemeLength(s)..]);
  }

  lemma LinkifySingleUrl(s: string)
    requires UrlLength(s) == |s| > 0
    ensures Linkify(s) == Anchor(s)
  {
    assert s[..|s|] == s;
    assert s[|s|..] == [];
  }

  lemma {:induction false} NoSpaceRunAll(s: string)
    requires forall i :: 0 <= i < |s| ==> !IsSpace(s[i])
    ensures NonSpaceRun(s) == |s|
    decreases |s|
  {
    if s != [] {
      NoSpaceRunAll(s[1..]);
    }
  }
}
