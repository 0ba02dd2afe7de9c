/** The live preview's document composer (`generatePreviewContent`).

    A page that already is a full document (it contains "<!DOCTYPE" or
    "<html", case-sensitively) gets the stylesheet spliced in before its first
    "</head>" (else before its first "<body", else not at all) and the script
    before its first "</body>" (else at the end); then the tags that load the
    project's own stylesheet or script are stripped. Any other page is poured
    into a fixed document shell. */
module Preview {
  import opened Wrappers
  import opened Strings
  import opened Seqs

  /* ------------------------------------------------------- mode detection */

  /** Full-document mode: "<!DOCTYPE" or "<html" occurs, with exactly that
      case. */
  predicate IsFullDocument(html: string) {
    Contains(html, "<!DOCTYPE") || Contains(html, "<html")
  }

  /* ------------------------------------------------------- String.replace */

  /** The replacement text JavaScript's `String.prototype.replace` inserts for
      a string pattern: "$$" is "$", "$&" the match, "$`" the text before it,
      "$'" the text after it; any other '$' is literal. */
  function Expand(rep: string, before: string, matched: string, after: string): (r: string)
    ensures '$' !in rep ==> r == rep
    decreases |rep|
  {
    if rep == [] then []
    else if rep[0] == '$' && |rep| >= 2 && rep[1] == '$' then "$" + Expand(rep[2..], before, matched, after)
    else if rep[0] == '$' && |rep| >= 2 && rep[1] == '&' then matched + Expand(rep[2..], before, matched, after)
    else if rep[0] == '$' && |rep| >= 2 && rep[1] == '`' then before + Expand(rep[2..], before, matched, after)
    else if rep[0] == '$' && |rep| >= 2 && rep[1] == '\'' then after + Expand(rep[2..], before, matched, after)
    else [rep[0]] + Expand(rep[1..], before, matched, after)
  }

  /** A literal prefix passes through the expansion unchanged. */
  lemma {:induction false} ExpandLiteralPrefix(a: string, rest: string, before: string, matched: string, after: string)
    requires '$' !in a
    ensures Expand(a + rest, before, matched, after) == a + Expand(rest, before, matched, after)
  {
    if a != [] {
      assert (a + rest)[0] == a[0] && a[0] in a;
      assert (a + rest)[1..] == a[1..] + rest;
      ExpandLiteralPrefix(a[1..], rest, before, matched, after);
      assert Expand(a + rest, before, matched, after) == [a[0]] + Expand(a[1..] + rest, before, matched, after);
      assert a == [a[0]] + a[1..];
      var e := Expand(rest, before, matched, after);
      assert [a[0]] + (a[1..] + e) == a + e;
    } else {
      assert a + rest == rest;
    }
  }

  /** `s.replace(pat, rep)` with a string pattern: only the first occurrence is
      replaced, by the expanded replacement text. */
  function ReplaceFirst(s: string, pat: string, rep: string): (r: string)
    ensures IndexOf(s, pat).None? ==> r == s
  {
    match IndexOf(s, pat)
    case None => s
    case Some(i) => s[..i] + Expand(rep, s[..i], pat, s[i + |pat|..]) + s[i + |pat|..]
  }

  /** `text` inserted immediately before the first occurrence of `pat`. */
  function InsertBefore(s: string, pat: string, text: string): (r: string)
    requires Contains(s, pat)
    ensures |r| == |s| + |text|
    ensures r[..IndexOf(s, pat).value] == s[..IndexOf(s, pat).value]
    ensures r[IndexOf(s, pat).value..IndexOf(s, pat).value + |text|] == text
    ensures r[IndexOf(s, pat).value + |text|..] == s[IndexOf(s, pat).value..]
  {
    var i := IndexOf(s, pat).value;
    s[..i] + text + s[i..]
  }

  /** Replacing the first `pat` by a '$'-free `text + pat` is inserting `text`
      before it. */
  lemma ReplaceIsInsert(s: string, pat: string, text: string)
    requires Contains(s, pat) && '$' !in text + pat
    ensures ReplaceFirst(s, pat, text + pat) == InsertBefore(s, pat, text)
  {
    var i := IndexOf(s, pat).value;
    var after := s[i + |pat|..];
    assert Expand(text + pat, s[..i], pat, after) == text + pat;
    assert s[i..] == pat + after by {
      assert s[i..i + |pat|] == pat;
    }
    assert s[..i] + (text + pat) + after == s[..i] + text + (pat + after);
  }

  /* ------------------------------------------------------------ injection */

  function StyleTag(css: string): string {
    "<style>" + css + "</style>"
  }

  /** The text after the script: the catch clause that logs a preview error. */
  function ScriptClose(): string {
    "}catch(e){" + "console.error(" + "'Preview Error:',e);" + "}</script>"
  }

  function ScriptTag(js: string): string {
    "<script>try{" + js + ScriptClose()
  }

  /** The fixed parts of both tags are free of '$'. */
  lemma TagsWithoutDollar(text: string)
    requires '$' !in text
    ensures '$' !in StyleTag(text) + "</head>" && '$' !in StyleTag(text) + "<body"
    ensures '$' !in ScriptTag(text) + "</body>"
  {
  }

  /** The stylesheet step as written: the style tag goes in through
      `String.replace`, whose replacement text expands '$' patterns. */
  function InjectStyleAsWritten(content: string, css: string): (r: string)
    ensures css == "" ==> r == content
  {
    if css == "" then content
    else if Contains(content, "</head>") then ReplaceFirst(content, "</head>", StyleTag(css) + "</head>")
    else if Contains(content, "<body") then ReplaceFirst(content, "<body", StyleTag(css) + "<body")
    else content
  }

  /** The script step as written. */
  function InjectScriptAsWritten(content: string, js: string): (r: string)
    ensures js == "" ==> r == content
  {
    if js == "" then content
    else if Contains(content, "</body>") then ReplaceFirst(content, "</body>", ScriptTag(js) + "</body>")
    else content + ScriptTag(js)
  }

  /** The stylesheet step: with a non-empty stylesheet, the style tag goes
      immediately before the first "</head>", else before the first "<body";
      with neither, or with an empty stylesheet, the page is unchanged. */
  function InjectStyle(content: string, css: string): (r: string)
    ensures css == "" ==> r == content
    ensures css != "" && Contains(content, "</head>") ==> r == InsertBefore(content, "</head>", StyleTag(css))
    ensures css != "" && !Contains(content, "</head>") && Contains(content, "<body") ==> r == InsertBefore(content, "<body", StyleTag(css))
    ensures !Contains(content, "</head>") && !Contains(content, "<body") ==> r == content
  {
    if css == "" then content
    else if Contains(content, "</head>") then InsertBefore(content, "</head>", StyleTag(css))
    else if Contains(content, "<body") then InsertBefore(content, "<body", StyleTag(css))
    else content
  }

  /** The script step: with a non-empty script, the wrapped script goes
      immediately before the first "</body>", or at the end when there is
      none; an empty script leaves the page unchanged. */
  function InjectScript(content: string, js: string): (r: string)
    ensures js == "" ==> r == content
    ensures js != "" && Contains(content, "</body>") ==> r == InsertBefore(content, "</body>", ScriptTag(js))
    ensures js != "" && !Contains(content, "</body>") ==> r == content + ScriptTag(js)
  {
    if js == "" then content
    else if Contains(content, "</body>") then InsertBefore(content, "</body>", ScriptTag(js))
    else content + ScriptTag(js)
  }

  /** Without a '$' in the stylesheet the step as written is the literal
      splice. */
  lemma StyleAsWrittenWithoutDollar(content: string, css: string)
    requires '$' !in css
    ensures InjectStyleAsWritten(content, css) == InjectStyle(content, css)
  {
    if css != "" {
      TagsWithoutDollar(css);
      if Contains(content, "</head>") {
        ReplaceIsInsert(content, "</head>", StyleTag(css));
      } else if Contains(content, "<body") {
        ReplaceIsInsert(content, "<body", StyleTag(css));
      }
    }
  }

  /** Without a '$' in the script the step as written is the literal splice. */
  lemma ScriptAsWrittenWithoutDollar(content: string, js: string)
    requires '$' !in js
    ensures InjectScriptAsWritten(content, js) == InjectScript(content, js)
  {
    if js != "" && Contains(content, "</body>") {
      TagsWithoutDollar(js);
      ReplaceIsInsert(content, "</body>", ScriptTag(js));
    }
  }

  /** A script containing `'$'` loses those two characters, and the page text
      after "</body>" (here none) takes their place. */
  lemma ScriptWithDollarQuoteIsMangled()
    ensures InjectScriptAsWritten("<html></body>", "s='$'") != InjectScript("<html></body>", "s='$'")
  {
    BodyCloseAtSix();
    assert "s='$'" == "s='" + "$'" + "";
    DollarQuoteShortensScript("<html></body>", "s='", "", 6);
  }

  /** When the page ends with its first "</body>", a script holding `$'` comes
      out two characters short: the `$'` is replaced by the empty text after
      the match. */
  lemma DollarQuoteShortensScript(content: string, a: string, b: string, i: nat)
    requires '$' !in a && '$' !in b && IndexOf(content, "</body>") == Some(i) && i + 7 == |content|
    ensures |InjectScriptAsWritten(content, a + "$'" + b)| + 2 == |InjectScript(content, a + "$'" + b)|
    ensures InjectScriptAsWritten(content, a + "$'" + b) != InjectScript(content, a + "$'" + b)
  {
    DollarQuoteInScript(content, a, b, i);
    assert Contains(content, "</body>");
  }

  /** A script holding `$'` gets, in its place, the page text after the first
      "</body>". */
  lemma DollarQuoteInScript(content: string, a: string, b: string, i: nat)
    requires '$' !in a && '$' !in b && IndexOf(content, "</body>") == Some(i)
    ensures InjectScriptAsWritten(content, a + "$'" + b)
      == content[..i] + ("<script>try{" + a) + content[i + 7..] + (b + ScriptClose() + "</body>") + content[i + 7..]
  {
    var lit := "<script>try{" + a;
    var tail := b + ScriptClose() + "</body>";
    var after := content[i + 7..];
    var rep := ScriptTag(a + "$'" + b) + "</body>";
    ScriptAsWrittenSplices(content, a + "$'" + b, i);
    assert Expand(rep, content[..i], "</body>", after) == lit + after + tail by {
      ScriptTagAround(a, b);
      ExpandDollarQuote(lit, tail, content[..i], "</body>", after);
    }
  }

  /** Where the page has a "</body>", the step as written splices in the
      expanded replacement there. */
  lemma ScriptAsWrittenSplices(content: string, js: string, i: nat)
    requires js != "" && IndexOf(content, "</body>") == Some(i)
    ensures InjectScriptAsWritten(content, js)
      == content[..i] + Expand(ScriptTag(js) + "</body>", content[..i], "</body>", content[i + 7..]) + content[i + 7..]
  {
  }

  /** The script tag around `a + "$'" + b`, split at the `$'`. */
  lemma ScriptTagAround(a: string, b: string)
    requires '$' !in a && '$' !in b
    ensures ScriptTag(a + "$'" + b) + "</body>" == ("<script>try{" + a) + "$'" + (b + ScriptClose() + "</body>")
    ensures '$' !in "<script>try{" + a && '$' !in b + ScriptClose() + "</body>"
  {
    ScriptCloseWithoutDollar();
  }

  lemma ScriptCloseWithoutDollar()
    ensures '$' !in "<script>try{" && '$' !in ScriptClose() + "</body>"
  {
  }

  /** The first "</body>" of the small page starts at position 6. */
  lemma BodyCloseAtSix()
    ensures "<html>" + "</body>" == "<html></body>"
    ensures IndexOf("<html></body>", "</body>") == Some(6)
  {
    BodyCloseAfterHtml("<html>", "</body>");
  }

  /** The literals are passed as parameters pinned by `requires` so that the
      verifier does not unfold `IndexOf` on a literal argument. */
  lemma BodyCloseAfterHtml(h: string, b: string)
    requires h == "<html>" && b == "</body>"
    ensures IndexOf(h + b, b) == Some(|h|)
  {
    var doc := h + b;
    forall j | 0 <= j < 6 ensures !OccursAt(doc, b, j) {
      assert doc[j + 6] != '>';
      assert doc[j..j + 7][6] == doc[j + 6];
    }
    assert doc[6..13] == b;
    IndexOfFirst(doc, b, 6);
  }

  /** `$'` between '$'-free texts expands to what follows the match. */
  lemma ExpandDollarQuote(lit: string, tail: string, before: string, matched: string, after: string)
    requires '$' !in lit && '$' !in tail
    ensures Expand(lit + "$'" + tail, before, matched, after) == lit + after + tail
  {
    assert lit + "$'" + tail == lit + ("$'" + tail);
    ExpandLiteralPrefix(lit, "$'" + tail, before, matched, after);
    ExpandQuoteHead("$'", tail, before, matched, after);
  }

  /** A leading `$'` becomes the text after the match. (`d` stands for the
      literal so that the verifier does not unfold `Expand` on it.) */
  lemma ExpandQuoteHead(d: string, tail: string, before: string, matched: string, after: string)
    requires d == "$'" && '$' !in tail
    ensures Expand(d + tail, before, matched, after) == after + tail
  {
    var r := d + tail;
    assert r[0] == '$' && r[1] == '\'' && r[2..] == tail;
  }

  /* ------------------------------------------------------------ stripping */

  /** One of the five tag patterns `<tag[^>]*attr=["']name["'][^>]*>close`,
      matched ignoring ASCII case. */
  datatype Pattern = Pattern(tag: string, attr: string, name: string, close: string)

  function LinkTo(name: string): Pattern {
    Pattern("<link", "href=", name, "")
  }

  function ScriptFrom(name: string): Pattern {
    Pattern("<script", "src=", name, "</script>")
  }

  /** The patterns in the order they are applied. */
  function StripPatterns(): seq<Pattern> {
    [LinkTo("styles.css"), LinkTo("style.css"), ScriptFrom("script.js"), ScriptFrom("main.js"), ScriptFrom("app.js")]
  }

  predicate IsQuote(c: char) {
    c == '"' || c == '\''
  }

  function AttrLen(p: Pattern): nat {
    |p.attr| + |p.name| + 2
  }

  /** `attr=`, a quote, the name, a quote (either quote each time) at `j`. */
  predicate AttrAt(s: string, j: int, p: Pattern) {
    && 0 <= j && j + AttrLen(p) <= |s|
    && CiAt(s, j, p.attr)
    && IsQuote(s[j + |p.attr|])
    && CiAt(s, j + |p.attr| + 1, p.name)
    && IsQuote(s[j + |p.attr| + 1 + |p.name|])
  }

  /** The first position in `lo..hi` where the attribute fits whole. */
  function AttrFrom(s: string, lo: nat, hi: nat, p: Pattern): (r: Option<nat>)
    ensures r.Some? ==> lo <= r.value && r.value + AttrLen(p) <= hi && AttrAt(s, r.value, p)
    ensures r.None? ==> forall j :: lo <= j && j + AttrLen(p) <= hi ==> !AttrAt(s, j, p)
    decreases hi - lo
  {
    if lo + AttrLen(p) > hi then None
    else if AttrAt(s, lo, p) then Some(lo)
    else AttrFrom(s, lo + 1, hi, p)
  }

  /** The regular expression's matches at `i`, described by their parts: the
      tag; a run without '>'; the attribute at `j`; a run without '>'; the
      first '>' at `g`; the closing text. */
  predicate RegexMatch(s: string, p: Pattern, i: int, j: int, g: int) {
    && CiAt(s, i, p.tag)
    && i + |p.tag| <= j && j + AttrLen(p) <= g && g < |s|
    && s[g] == '>'
    && (forall k :: i + |p.tag| <= k < g ==> s[k] != '>')
    && AttrAt(s, j, p)
    && CiAt(s, g + 1, p.close)
  }

  /** The first '>' at or after `from`: where a run of `[^>]*` must stop. */
  function FirstGt(s: string, from: nat): (r: Option<nat>)
    ensures r.Some? ==> from <= r.value < |s| && s[r.value] == '>'
    ensures r.Some? ==> forall k :: from <= k < r.value ==> s[k] != '>'
    ensures r.None? ==> forall k :: from <= k < |s| ==> s[k] != '>'
    decreases |s| - from
  {
    if from >= |s| then None
    else if s[from] == '>' then Some(from)
    else FirstGt(s, from + 1)
  }

  /** The first '>' is found wherever it is. */
  lemma {:induction false} FirstGtAt(s: string, from: nat, g: nat)
    requires from <= g < |s| && s[g] == '>'
    requires forall k :: from <= k < g ==> s[k] != '>'
    ensures FirstGt(s, from) == Some(g)
    decreases g - from
  {
    if from < g {
      FirstGtAt(s, from + 1, g);
    }
  }

  /** Where the attribute fits nowhere in the window, none is found. */
  lemma {:induction false} AttrFromNone(s: string, lo: nat, hi: nat, p: Pattern)
    requires forall j :: lo <= j && j + AttrLen(p) <= hi ==> !AttrAt(s, j, p)
    ensures AttrFrom(s, lo, hi, p).None?
    decreases hi - lo
  {
    if lo + AttrLen(p) <= hi {
      AttrFromNone(s, lo + 1, hi, p);
    }
  }

  /** The end of the match at `i`, if the pattern matches there. Both runs
      stop short of a '>', so every match at `i` ends at the first '>' after
      the tag (plus the closing text): the end does not depend on how the
      runs are split. */
  function MatchAt(s: string, p: Pattern, i: nat): (r: Option<nat>)
    ensures r.Some? ==> i < r.value <= |s|
  {
    if !CiAt(s, i, p.tag) then None
    else match FirstGt(s, i + |p.tag|)
      case None => None
      case Some(g) =>
        if AttrFrom(s, i + |p.tag|, g, p).Some? && CiAt(s, g + 1, p.close) then Some(g + 1 + |p.close|)
        else None
  }

  /** Every end the scanner reports is the end of a regular-expression match. */
  lemma MatchAtSound(s: string, p: Pattern, i: nat)
    requires MatchAt(s, p, i).Some?
    ensures exists j, g :: RegexMatch(s, p, i, j, g) && MatchAt(s, p, i) == Some(g + 1 + |p.close|)
  {
    var j, g := MatchAtParts(s, p, i);
  }

  /** The attribute and the '>' of the match the scanner reports. */
  lemma MatchAtParts(s: string, p: Pattern, i: nat) returns (j: int, g: int)
    requires MatchAt(s, p, i).Some?
    ensures RegexMatch(s, p, i, j, g) && MatchAt(s, p, i) == Some(g + 1 + |p.close|)
  {
    assert CiAt(s, i, p.tag);
    g := FirstGt(s, i + |p.tag|).value;
    j := AttrFrom(s, i + |p.tag|, g, p).value;
  }

  /** Where the attribute fits somewhere in the window, one is found. */
  lemma {:induction false} AttrFromFinds(s: string, lo: nat, hi: nat, p: Pattern, j: int)
    requires lo <= j && j + AttrLen(p) <= hi && AttrAt(s, j, p)
    ensures AttrFrom(s, lo, hi, p).Some?
    decreases hi - lo
  {
    if lo < j && !AttrAt(s, lo, p) {
      AttrFromFinds(s, lo + 1, hi, p, j);
    }
  }

  /** Every regular-expression match at `i` is found, with its end. */
  lemma MatchAtComplete(s: string, p: Pattern, i: nat, j: int, g: int)
    requires RegexMatch(s, p, i, j, g)
    ensures MatchAt(s, p, i) == Some(g + 1 + |p.close|)
  {
    FirstGtAt(s, i + |p.tag|, g);
    AttrFromFinds(s, i + |p.tag|, g, p, j);
    MatchAtWhen(s, p, i, g);
  }

  /** The scanner's three steps succeeding give the match's end. */
  lemma MatchAtWhen(s: string, p: Pattern, i: nat, g: nat)
    requires CiAt(s, i, p.tag) && FirstGt(s, i + |p.tag|) == Some(g)
    requires AttrFrom(s, i + |p.tag|, g, p).Some? && CiAt(s, g + 1, p.close)
    ensures MatchAt(s, p, i) == Some(g + 1 + |p.close|)
  {
  }

  /** The global replace by "": matches are removed left to right, and the
      search resumes where the last match ended. */
  function StripFrom(s: string, p: Pattern, i: nat): (r: string)
    requires i <= |s|
    ensures |r| <= |s| - i
    decreases |s| - i
  {
    if i == |s| then []
    else match MatchAt(s, p, i)
      case Some(e) => StripFrom(s, p, e)
      case None => [s[i]] + StripFrom(s, p, i + 1)
  }

  /** What stripping leaves is the text with some characters deleted. */
  lemma {:induction false} StripFromIsSubseq(s: string, p: Pattern, i: nat)
    requires i <= |s|
    ensures Subseq(StripFrom(s, p, i), s[i..])
    decreases |s| - i
  {
    if i < |s| {
      match MatchAt(s, p, i)
      case Some(e) =>
        StripFromIsSubseq(s, p, e);
        SubseqDrop(StripFrom(s, p, e), s, i, e);
      case None =>
        StripFromIsSubseq(s, p, i + 1);
        assert s[i..] == [s[i]] + s[i + 1..];
    }
  }

  /** A subsequence of a suffix is a subsequence of any longer suffix. */
  lemma {:induction false} SubseqDrop(r: string, s: string, i: nat, e: nat)
    requires i <= e <= |s| && Subseq(r, s[e..])
    ensures Subseq(r, s[i..])
    decreases e - i
  {
    if i < e {
      SubseqDrop(r, s, i + 1, e);
      assert s[i..][1..] == s[i + 1..];
      SubseqSkip(r, s[i..]);
    }
  }

  function Strip(s: string, p: Pattern): (r: string)
    ensures |r| <= |s| && Subseq(r, s)
  {
    assert s[0..] == s;
    StripFromIsSubseq(s, p, 0);
    StripFrom(s, p, 0)
  }

  /** The five replacements in order. */
  function StripAll(s: string): (r: string)
    ensures |r| <= |s|
  {
    var ps := StripPatterns();
    Strip(Strip(Strip(Strip(Strip(s, ps[0]), ps[1]), ps[2]), ps[3]), ps[4])
  }

  /** Text in which the tag never starts is left alone. */
  lemma {:induction false} StripWithoutTag(s: string, p: Pattern, i: nat)
    requires i <= |s|
    requires forall k :: i <= k < |s| ==> !CiAt(s, k, p.tag)
    ensures StripFrom(s, p, i) == s[i..]
    decreases |s| - i
  {
    if i < |s| {
      StripWithoutTag(s, p, i + 1);
      assert s[i..] == [s[i]] + s[i + 1..];
    }
  }

  /** Every tag starts with '<': text without '<' is left alone. */
  lemma StripWithoutAngle(s: string, p: Pattern, i: nat)
    requires i <= |s| && '<' !in s[i..]
    requires p.tag != [] && p.tag[0] == '<'
    ensures StripFrom(s, p, i) == s[i..]
  {
    forall k | i <= k < |s| ensures !CiAt(s, k, p.tag) {
      assert s[k] == s[i..][k - i];
      CiMismatch(s, k, p.tag, 0);
    }
    StripWithoutTag(s, p, i);
  }

  /** The pattern does not match at `k`. */
  predicate NoMatchAt(s: string, p: Pattern, k: nat) {
    MatchAt(s, p, k).None?
  }

  /** A run of positions where the pattern does not match is copied. */
  lemma {:induction false} StripKeepsRun(s: string, p: Pattern, i: nat, n: nat)
    requires i <= n <= |s|
    requires forall k :: i <= k < n ==> NoMatchAt(s, p, k)
    ensures StripFrom(s, p, i) == s[i..n] + StripFrom(s, p, n)
    decreases n - i
  {
    if i < n {
      StripKeepsRun(s, p, i + 1, n);
      StripRunStep(s, p, i, n);
    } else {
      assert s[i..n] == [];
    }
  }

  lemma StripRunStep(s: string, p: Pattern, i: nat, n: nat)
    requires i < n <= |s| && NoMatchAt(s, p, i)
    requires StripFrom(s, p, i + 1) == s[i + 1..n] + StripFrom(s, p, n)
    ensures StripFrom(s, p, i) == s[i..n] + StripFrom(s, p, n)
  {
    StripKeeps(s, p, i);
    ConsSlice(s, i, n, StripFrom(s, p, n));
  }

  lemma ConsSlice(s: string, i: nat, n: nat, t: string)
    requires i < n <= |s|
    ensures [s[i]] + (s[i + 1..n] + t) == s[i..n] + t
  {
    assert s[i..n] == [s[i]] + s[i + 1..n];
  }

  /** No match where a character of the tag differs. */
  lemma TagMismatch(s: string, p: Pattern, i: nat, k: nat)
    requires k < |p.tag| && i + k < |s| && LowerChar(s[i + k]) != p.tag[k]
    ensures NoMatchAt(s, p, i)
  {
    CiMismatch(s, i, p.tag, k);
  }

  /** The pattern cannot match where there is no '<'. */
  lemma NoMatchWithoutAngle(s: string, p: Pattern, k: nat)
    requires k < |s| && s[k] != '<'
    requires p.tag != [] && p.tag[0] == '<'
    ensures NoMatchAt(s, p, k)
  {
    CiMismatch(s, k, p.tag, 0);
  }

  /** Text without a "<link" or "<script" in any letter case is left alone. */
  lemma StripAllWithoutTags(s: string)
    requires forall k :: 0 <= k < |s| ==> !CiAt(s, k, "<link") && !CiAt(s, k, "<script")
    ensures StripAll(s) == s
  {
    var ps := StripPatterns();
    assert s[0..] == s;
    StripWithoutTag(s, ps[0], 0);
    StripWithoutTag(s, ps[1], 0);
    StripWithoutTag(s, ps[2], 0);
    StripWithoutTag(s, ps[3], 0);
    StripWithoutTag(s, ps[4], 0);
  }

  /** The pattern's tag starts nowhere in `t`, in any letter case. */
  predicate NoTagIn(t: string, p: Pattern) {
    forall k :: 0 <= k < |t| ==> !CiAt(t, k, p.tag)
  }

  /** The tag opens with '<' and holds no other '<'. */
  predicate AngleOpened(p: Pattern) {
    p.tag != [] && p.tag[0] == '<' && forall m :: 0 < m < |p.tag| ==> p.tag[m] != '<'
  }

  /** Text without '<' holds no tag. */
  lemma NoTagWithoutAngle(t: string, p: Pattern)
    requires '<' !in t && p.tag != [] && p.tag[0] == '<'
    ensures NoTagIn(t, p)
  {
    forall k | 0 <= k < |t| ensures !CiAt(t, k, p.tag) {
      CiMismatch(t, k, p.tag, 0);
    }
  }

  lemma LinkAngleOpened(name: string)
    ensures AngleOpened(LinkTo(name))
  {
  }

  lemma ScriptAngleOpened(name: string)
    ensures AngleOpened(ScriptFrom(name))
  {
  }

  /** A pattern whose fixed parts are written in lower case, with no '>' in
      the attribute or the name. */
  predicate Canonical(p: Pattern) {
    && Lower(p.tag) == p.tag && Lower(p.attr) == p.attr
    && Lower(p.name) == p.name && Lower(p.close) == p.close
    && '>' !in p.attr && '>' !in p.name
  }

  lemma StripPatternsCanonical()
    ensures forall p :: p in StripPatterns() ==> Canonical(p)
  {
    LinkCanonical("styles.css");
    LinkCanonical("style.css");
    ScriptCanonical("script.js");
    ScriptCanonical("main.js");
    ScriptCanonical("app.js");
  }

  lemma LinkCanonical(name: string)
    requires NoUpper(name) && '>' !in name
    ensures Canonical(LinkTo(name))
  {
    CanonicalWhenLowerCase(LinkTo(name));
  }

  lemma ScriptCanonical(name: string)
    requires NoUpper(name) && '>' !in name
    ensures Canonical(ScriptFrom(name))
  {
    CanonicalWhenLowerCase(ScriptFrom(name));
  }

  /** A pattern written without upper-case letters, and without '>' in its
      attribute and name, is canonical. */
  lemma CanonicalWhenLowerCase(p: Pattern)
    requires NoUpper(p.tag) && NoUpper(p.attr) && NoUpper(p.name) && NoUpper(p.close)
    requires '>' !in p.attr && '>' !in p.name
    ensures Canonical(p)
  {
    LowerFixesLowerCase(p.tag);
    LowerFixesLowerCase(p.attr);
    LowerFixesLowerCase(p.name);
    LowerFixesLowerCase(p.close);
  }

  /** The element a pattern is written to remove: the tag, other attributes,
      the quoted reference, '>' and the closing text. */
  function Element(p: Pattern, attrs: string, q: char): string {
    p.tag + attrs + p.attr + [q] + p.name + [q] + ">" + p.close
  }

  /** Where the parts of an element sit in it. */
  lemma ElementParts(p: Pattern, attrs: string, q: char)
    ensures var e, t, at, n := Element(p, attrs, q), |p.tag|, |attrs|, |p.attr|;
      && |e| == t + at + AttrLen(p) + 1 + |p.close|
      && e[..t] == p.tag
      && e[t + at..t + at + n] == p.attr
      && e[t + at + n] == q
      && e[t + at + n + 1..t + at + n + 1 + |p.name|] == p.name
      && e[t + at + n + 1 + |p.name|] == q
      && e[t + at + AttrLen(p)] == '>'
      && e[t + at + AttrLen(p) + 1..] == p.close
  {
  }

  /** Inside an element, between the tag and its '>', there is no '>'. */
  lemma ElementRunsWithoutGt(p: Pattern, attrs: string, q: char)
    requires '>' !in p.attr && '>' !in p.name && IsQuote(q) && '>' !in attrs
    ensures forall k :: |p.tag| <= k < |p.tag| + |attrs| + AttrLen(p) ==> Element(p, attrs, q)[k] != '>'
  {
    var e := Element(p, attrs, q);
    var t, at, n := |p.tag|, |attrs|, |p.attr|;
    forall k | t <= k < t + at + AttrLen(p) ensures e[k] != '>' {
      if k < t + at {
        assert e[k] == attrs[k - t];
      } else if k < t + at + n {
        assert e[k] == p.attr[k - t - at];
      } else if t + at + n < k < t + at + n + 1 + |p.name| {
        assert e[k] == p.name[k - t - at - n - 1];
      }
    }
  }

  /** A slice of the middle part of a concatenation. */
  lemma MiddleSlice(pre: string, e: string, rest: string, x: int, y: int)
    requires 0 <= x <= y <= |e|
    ensures (pre + e + rest)[|pre| + x..|pre| + y] == e[x..y]
  {
  }

  /** The pattern matches all of `e`, from its first character. */
  predicate MatchesWhole(e: string, p: Pattern) {
    exists j, g | 0 <= j <= g < |e| :: RegexMatch(e, p, 0, j, g) && g + 1 + |p.close| == |e|
  }

  /** The element on its own is matched whole. */
  lemma ElementIsLocalMatch(p: Pattern, attrs: string, q: char)
    requires Canonical(p) && IsQuote(q) && '>' !in attrs
    ensures MatchesWhole(Element(p, attrs, q), p)
  {
    var e := Element(p, attrs, q);
    var j := |p.tag| + |attrs|;
    ElementParts(p, attrs, q);
    ElementRunsWithoutGt(p, attrs, q);
    assert e[0..|p.tag|] == e[..|p.tag|];
    assert AttrAt(e, j, p);
    assert RegexMatch(e, p, 0, j, j + AttrLen(p));
  }

  /** A match inside `e` is a match at the same place in `pre + e + rest`. */
  lemma RegexMatchShift(pre: string, e: string, rest: string, p: Pattern, i: int, j: int, g: int)
    requires RegexMatch(e, p, i, j, g)
    ensures RegexMatch(pre + e + rest, p, |pre| + i, |pre| + j, |pre| + g)
  {
    var s := pre + e + rest;
    var d := |pre|;
    CiAtShift(pre, e, rest, i, p.tag);
    CiAtShift(pre, e, rest, g + 1, p.close);
    CiAtShift(pre, e, rest, j, p.attr);
    CiAtShift(pre, e, rest, j + |p.attr| + 1, p.name);
    assert s[d + j + |p.attr|] == e[j + |p.attr|];
    assert s[d + j + |p.attr| + 1 + |p.name|] == e[j + |p.attr| + 1 + |p.name|];
    assert s[d + g] == e[g];
    forall k | d + i + |p.tag| <= k < d + g ensures s[k] != '>' {
      assert s[k] == e[k - d];
    }
  }

  /** A case-insensitive match inside `e` survives putting text around `e`. */
  lemma CiAtShift(pre: string, e: string, rest: string, x: int, lit: string)
    requires CiAt(e, x, lit)
    ensures CiAt(pre + e + rest, |pre| + x, lit)
  {
    MiddleSlice(pre, e, rest, x, x + |lit|);
  }

  /** Wherever such an element stands, the pattern matches exactly it. */
  lemma ElementMatches(pre: string, p: Pattern, attrs: string, q: char, rest: string)
    requires Canonical(p) && IsQuote(q) && '>' !in attrs
    ensures MatchAt(pre + Element(p, attrs, q) + rest, p, |pre|) == Some(|pre| + |Element(p, attrs, q)|)
  {
    assert MatchesWhole(Element(p, attrs, q), p) by {
      ElementIsLocalMatch(p, attrs, q);
    }
    MatchInside(pre, Element(p, attrs, q), rest, p);
  }

  /** A match that spans the whole of `e` is found where `e` stands in a
      longer text. */
  lemma MatchInside(pre: string, e: string, rest: string, p: Pattern)
    requires MatchesWhole(e, p)
    ensures MatchAt(pre + e + rest, p, |pre|) == Some(|pre| + |e|)
  {
    var j, g :| 0 <= j <= g < |e| && RegexMatch(e, p, 0, j, g) && g + 1 + |p.close| == |e|;
    RegexMatchShift(pre, e, rest, p, 0, j, g);
    MatchAtComplete(pre + e + rest, p, |pre|, |pre| + j, |pre| + g);
  }

  /** An element standing between texts in which the pattern's tag never
      starts is removed, and nothing else is. */
  lemma StripRemovesElement(pre: string, p: Pattern, attrs: string, q: char, rest: string)
    requires Canonical(p) && IsQuote(q) && '>' !in attrs
    requires AngleOpened(p)
    requires NoTagIn(pre, p) && NoTagIn(rest, p)
    ensures Strip(pre + Element(p, attrs, q) + rest, p) == pre + rest
  {
    assert MatchesWhole(Element(p, attrs, q), p) by {
      ElementIsLocalMatch(p, attrs, q);
    }
    StripRemovesWhole(pre, Element(p, attrs, q), rest, p);
  }

  /** Text matched whole, between texts in which the pattern's tag never
      starts, is removed, and nothing else is. */
  lemma StripRemovesWhole(pre: string, e: string, rest: string, p: Pattern)
    requires MatchesWhole(e, p)
    requires AngleOpened(p)
    requires NoTagIn(pre, p) && NoTagIn(rest, p)
    ensures Strip(pre + e + rest, p) == pre + rest
  {
    var s := pre + e + rest;
    var m := |pre| + |e|;
    assert s[..|pre|] == pre;
    assert e[0] == '<' by {
      var j, g :| 0 <= j <= g < |e| && RegexMatch(e, p, 0, j, g) && g + 1 + |p.close| == |e|;
      CiAtChar(e, 0, p.tag, 0);
    }
    NoTagBefore(pre, e, rest, p);
    MatchInside(pre, e, rest, p);
    assert s[m..] == rest;
    StripOneMatch(s, p, |pre|, m);
  }

  /** No match starts in `pre` when `pre` holds no tag and a '<' follows it:
      a tag begun in `pre` would have to take that '<' as a later character. */
  lemma NoTagBefore(pre: string, e: string, rest: string, p: Pattern)
    requires AngleOpened(p) && e != [] && e[0] == '<' && NoTagIn(pre, p)
    ensures forall k :: 0 <= k < |pre| ==> NoMatchAt(pre + e + rest, p, k)
  {
    var s := pre + e + rest;
    forall k | 0 <= k < |pre| ensures NoMatchAt(s, p, k) {
      if k + |p.tag| <= |pre| {
        CiAtWithin(s, 0, |pre|, k, p.tag);
        assert s[0..|pre|] == pre;
      } else {
        assert s[|pre|] == '<';
        CiMismatch(s, k, p.tag, |pre| - k);
      }
    }
  }

  /** With no match before `a`, a match from `a` to `b`, and no tag starting
      after it, stripping removes exactly `a..b`. */
  lemma StripOneMatch(s: string, p: Pattern, a: nat, b: nat)
    requires a <= |s| && forall k :: 0 <= k < a ==> NoMatchAt(s, p, k)
    requires a < |s| && MatchAt(s, p, a) == Some(b)
    requires NoTagIn(s[b..], p)
    ensures Strip(s, p) == s[..a] + s[b..]
  {
    StripKeepsRun(s, p, 0, a);
    assert s[0..a] == s[..a];
    StripDrops(s, p, a);
    NoTagAfter(s, b, p);
    StripWithoutTag(s, p, b);
  }

  /** A tag starting at or after `b` would be a tag in `s[b..]`. */
  lemma NoTagAfter(s: string, b: nat, p: Pattern)
    requires b <= |s| && NoTagIn(s[b..], p)
    ensures forall k :: b <= k < |s| ==> !CiAt(s, k, p.tag)
  {
    assert s[b..|s|] == s[b..];
    forall k | b <= k < |s| ensures !CiAt(s, k, p.tag) {
      if k + |p.tag| <= |s| {
        CiAtWithin(s, b, |s|, k, p.tag);
      }
    }
  }

  /** Where the pattern does not match, the character is kept. */
  lemma StripKeeps(s: string, p: Pattern, i: nat)
    requires i < |s| && MatchAt(s, p, i).None?
    ensures StripFrom(s, p, i) == [s[i]] + StripFrom(s, p, i + 1)
  {
  }

  /** Where the pattern matches, the match is dropped. */
  lemma StripDrops(s: string, p: Pattern, i: nat)
    requires i < |s| && MatchAt(s, p, i).Some?
    ensures StripFrom(s, p, i) == StripFrom(s, p, MatchAt(s, p, i).value)
  {
  }

  /** Stripping does not leave text free of the pattern: removing a tag can
      join the text around it into a new tag. */
  lemma StripCanReformTag(s: string)
    requires s == "<li" + Element(LinkTo("styles.css"), " ", '\'') + ("nk" + " " + "href=" + "'" + "styles.css" + "'" + ">")
    ensures Strip(s, LinkTo("styles.css")) == Element(LinkTo("styles.css"), " ", '\'')
    ensures MatchAt(Strip(s, LinkTo("styles.css")), LinkTo("styles.css"), 0).Some?
  {
    var p := LinkTo("styles.css");
    var e := Element(p, " ", '\'');
    var rest := "nk" + " " + "href=" + "'" + "styles.css" + "'" + ">";
    LinkToStylesCanonical();
    ReformKeepsPrefix(s, e, rest, p);
    ElementMatches("<li", p, " ", '\'', rest);
    StripDrops(s, p, 3);
    ReformParts(rest);
    assert s[3 + |e|..] == rest;
    StripWithoutAngle(s, p, 3 + |e|);
    assert s[0..] == s;
    assert Strip(s, p) == "<li" + rest;
    ElementMatches("", p, " ", '\'', "");
    assert "" + e + "" == e;
  }

  lemma LinkToStylesCanonical()
    ensures Canonical(LinkTo("styles.css"))
  {
    LinkCanonical("styles.css");
  }

  /** A tag pattern whose fourth character is 'n' does not match at the first
      three characters of "<li<", which are kept. */
  lemma ReformKeepsPrefix(s: string, e: string, rest: string, p: Pattern)
    requires s == "<li" + e + rest && |e| > 0 && e[0] == '<'
    requires |p.tag| > 3 && p.tag[0] == '<' && p.tag[3] == 'n'
    ensures StripFrom(s, p, 0) == "<li" + StripFrom(s, p, 3)
  {
    assert s[0] == '<' && s[1] == 'l' && s[2] == 'i' && s[3] == '<';
    forall k | 0 <= k < 3 ensures NoMatchAt(s, p, k) {
      if k == 0 {
        TagMismatch(s, p, 0, 3);
      } else {
        NoMatchWithoutAngle(s, p, k);
      }
    }
    StripKeepsRun(s, p, 0, 3);
    assert s[0..3] == "<li";
  }

  /** The text after the removed tag: no '<', and with "<li" in front it is
      the tag again. */
  lemma ReformParts(rest: string)
    requires rest == "nk" + " " + "href=" + "'" + "styles.css" + "'" + ">"
    ensures '<' !in rest
    ensures "<li" + rest == Element(LinkTo("styles.css"), " ", '\'')
  {
    assert "<li" + "nk" == "<link";
  }

  /** The script the preview injects is never taken for an external script:
      its own tag closes before any `src=` could follow. */
  lemma InjectedScriptKept(pre: string, js: string, rest: string, name: string)
    ensures MatchAt(pre + ScriptTag(js) + rest, ScriptFrom(name), |pre|).None?
  {
    var s := pre + ScriptTag(js) + rest;
    var i := |pre|;
    assert s[i + 7] == '>';
    assert FirstGt(s, i + 7) == Some(i + 7);
  }

  /* ------------------------------------------------------------ fragments */

  /** The fixed text of a document shell around its three holes. */
  datatype Shell = Shell(head: string, body: string, script: string, tail: string)

  /** `r` is `sh` with the stylesheet, the page and the script in its holes,
      each verbatim and at the position the parts before it fix. */
  predicate Fills(r: string, sh: Shell, html: string, css: string, js: string) {
    && |r| == |sh.head| + |css| + |sh.body| + |html| + |sh.script| + |js| + |sh.tail|
    && FillsFront(r, sh, html, css)
    && FillsBack(r, sh, js)
  }

  /** The head, the stylesheet, the body text and the page, from the start. */
  predicate FillsFront(r: string, sh: Shell, html: string, css: string) {
    var h, c, b := |sh.head|, |css|, |sh.body|;
    && h + c + b + |html| <= |r|
    && r[..h] == sh.head
    && r[h..h + c] == css
    && r[h + c..h + c + b] == sh.body
    && r[h + c + b..h + c + b + |html|] == html
  }

  /** The script text, the script and the tail, up to the end. */
  predicate FillsBack(r: string, sh: Shell, js: string) {
    var n := |r| - |sh.script| - |js| - |sh.tail|;
    && 0 <= n
    && r[n..n + |sh.script|] == sh.script
    && r[n + |sh.script|..|r| - |sh.tail|] == js
    && r[|r| - |sh.tail|..] == sh.tail
  }

  function Fill(sh: Shell, html: string, css: string, js: string): (r: string)
    ensures Fills(r, sh, html, css, js)
  {
    var r := sh.head + css + sh.body + html + sh.script + js + sh.tail;
    FillFront(sh.head, css, sh.body, html, sh.script + js + sh.tail);
    FillBack(sh.head + css + sh.body + html, sh.script, js, sh.tail);
    r
  }

  lemma FillFront(a: string, b: string, c: string, d: string, rest: string)
    ensures var r := a + b + c + d + rest;
      && r[..|a|] == a
      && r[|a|..|a| + |b|] == b
      && r[|a| + |b|..|a| + |b| + |c|] == c
      && r[|a| + |b| + |c|..|a| + |b| + |c| + |d|] == d
  {
  }

  lemma FillBack(front: string, a: string, b: string, c: string)
    ensures var r := front + a + b + c;
      && r[|front|..|front| + |a|] == a
      && r[|front| + |a|..|r| - |c|] == b
      && r[|r| - |c|..] == c
  {
  }

  /** Two adjacent slices join into one. */
  lemma JoinSlices(r: string, i: nat, j: nat, k: nat, x: string, y: string)
    requires i <= j <= k <= |r| && r[i..j] == x && r[j..k] == y
    ensures r[i..k] == x + y
  {
    assert r[i..k] == r[i..j] + r[j..k];
  }

  /** A text that fills a shell is the shell's parts and the contents, joined
      in order. */
  lemma FillsIsFill(r: string, sh: Shell, html: string, css: string, js: string)
    requires Fills(r, sh, html, css, js)
    ensures r == sh.head + css + sh.body + html + sh.script + js + sh.tail
  {
    var x := |sh.head| + |css| + |sh.body| + |html|;
    FrontJoined(r, sh, html, css);
    BackJoined(r, sh, js);
    assert r == r[..x] + r[x..];
  }

  lemma FrontJoined(r: string, sh: Shell, html: string, css: string)
    requires FillsFront(r, sh, html, css)
    ensures r[..|sh.head| + |css| + |sh.body| + |html|] == sh.head + css + sh.body + html
  {
    var h, c, b := |sh.head|, |css|, |sh.body|;
    assert r[0..h] == sh.head;
    JoinSlices(r, 0, h, h + c, sh.head, css);
    JoinSlices(r, 0, h + c, h + c + b, sh.head + css, sh.body);
    JoinSlices(r, 0, h + c + b, h + c + b + |html|, sh.head + css + sh.body, html);
    assert r[..h + c + b + |html|] == r[0..h + c + b + |html|];
  }

  lemma BackJoined(r: string, sh: Shell, js: string)
    requires FillsBack(r, sh, js)
    ensures r[|r| - |sh.script| - |js| - |sh.tail|..] == sh.script + js + sh.tail
  {
    var n := |r| - |sh.script| - |js| - |sh.tail|;
    var z := |r| - |sh.tail|;
    JoinSlices(r, n, n + |sh.script|, z, sh.script, js);
    JoinSlices(r, n, z, |r|, sh.script + js, sh.tail);
    assert r[n..] == r[n..|r|];
  }

  /** The positions determine the text: only one string fills a shell with
      given contents. */
  lemma FillsUnique(r: string, r': string, sh: Shell, html: string, css: string, js: string)
    requires Fills(r, sh, html, css, js) && Fills(r', sh, html, css, js)
    ensures r == r'
  {
    FillsIsFill(r, sh, html, css, js);
    FillsIsFill(r', sh, html, css, js);
  }

  /** The shell's text before the stylesheet. */
  function FragmentHead(): string {
    "\n" + "<!DOCTYPE" + HeadAfterDoctype()
  }

  function HeadAfterDoctype(): string {
    " html>\n"
    + "<html lang=\"en\">\n<head>\n"
    + "  <meta charset=\"UTF-8\">\n"
    + "  <meta name=\"viewport\" content=\"width=device-width, initial-scale=1.0\">\n"
    + "  <style>\n"
    + "    * { margin: 0; padding: 0; box-sizing: border-box; }\n"
    + "    body { font-family: system-ui, -apple-system, sans-serif; }\n"
    + "    "
  }

  /** The fragment document's shell. */
  function FragmentShell(): Shell {
    Shell(
      FragmentHead(),
      "\n  </style>\n</head>\n<body>\n  ",
      "\n  <script>\n    try {\n      ",
      "\n    } catch (e) {\n"
      + "      console.error('Preview Error:', e);\n"
      + "    }\n  </script>\n</body>\n</html>\n    ")
  }

  /** The fragment document: the stylesheet, the page and the script go into
      the shell's holes verbatim, even when empty. */
  function Fragment(html: string, css: string, js: string): (r: string)
    ensures Fills(r, FragmentShell(), html, css, js)
  {
    Fill(FragmentShell(), html, css, js)
  }

  /** The shell opens with a line feed and "<!DOCTYPE". */
  lemma FragmentOpensWithDoctype(html: string, css: string, js: string)
    ensures |Fragment(html, css, js)| >= 10 && Fragment(html, css, js)[1..10] == "<!DOCTYPE"
  {
    var h := FragmentHead();
    DoctypeInHead(h);
    FillOpensWithHead(FragmentShell(), html, css, js);
  }

  lemma DoctypeInHead(h: string)
    requires h == FragmentHead()
    ensures |h| >= 10 && h[1..10] == "<!DOCTYPE"
  {
    DoctypeAfterLineFeed(HeadAfterDoctype());
  }

  lemma DoctypeAfterLineFeed(x: string)
    ensures |"\n" + "<!DOCTYPE" + x| >= 10 && ("\n" + "<!DOCTYPE" + x)[1..10] == "<!DOCTYPE"
  {
  }

  /** A filled shell opens with the shell's head. */
  lemma FillOpensWithHead(sh: Shell, html: string, css: string, js: string)
    ensures |Fill(sh, html, css, js)| >= |sh.head| && Fill(sh, html, css, js)[..|sh.head|] == sh.head
  {
  }

  /** The shell itself is a full document. */
  lemma FragmentIsFullDocument(html: string, css: string, js: string)
    ensures IsFullDocument(Fragment(html, css, js))
  {
    var r := Fragment(html, css, js);
    FragmentOpensWithDoctype(html, css, js);
    assert OccursAt(r, "<!DOCTYPE", 1);
    ContainsIff(r, "<!DOCTYPE");
  }

  /* -------------------------------------------------------------- compose */

  /** The path for a full document: the style tag goes in, then the script,
      then the five strips run. */
  function Inlined(html: string, css: string, js: string): string {
    StripAll(InjectScript(InjectStyle(html, css), js))
  }

  /** `generatePreviewContent`. */
  function Compose(html: string, css: string, js: string): (r: string)
    ensures IsFullDocument(html) ==> r == Inlined(html, css, js)
    ensures !IsFullDocument(html) ==> r == Fragment(html, css, js)
  {
    if !IsFullDocument(html) then Fragment(html, css, js)
    else Inlined(html, css, js)
  }

  /** Mode detection is case-sensitive: "<HTML>" is neither marker. */
  lemma UpperCaseHtmlNotFull()
    ensures !IsFullDocument("<HTML>")
  {
    var s := "<HTML>";
    forall j | 0 <= j && j + 5 <= |s| ensures !OccursAt(s, "<html", j) {
      assert s[j..j + 5][1] == s[j + 1];
      assert s[1] == 'H' && s[2] == 'T';
    }
    assert IndexOf(s, "<html").None?;
    assert IndexOf(s, "<!DOCTYPE").None?;
  }

  /** An upper-case "<HTML>" page is therefore wrapped as a fragment. */
  lemma UpperCaseHtmlIsFragment(css: string, js: string)
    ensures Compose("<HTML>", css, js) == Fragment("<HTML>", css, js)
  {
    UpperCaseHtmlNotFull();
  }
}
