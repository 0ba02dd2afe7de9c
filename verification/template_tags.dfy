/** The tag lines of the starters' pages that meet the preview's stripping
    step: the static page links its stylesheet and script by the names the
    preview inlines, so both tags are removed; the Vite page loads
    "/src/main.js", which no pattern names, so its tag stays. */
module TemplateTags {
  import opened Strings
  import opened Preview

  /** `<link rel="stylesheet" href="styles.css">` of the static page. */
  function StaticLinkLine(): string {
    Element(LinkTo("styles.css"), " rel=" + "\"stylesheet\" ", '"')
  }

  /** `<script src="script.js"></script>` of the static page. */
  function StaticScriptLine(): string {
    Element(ScriptFrom("script.js"), " ", '"')
  }

  /** The two lines, spelled out. */
  lemma StaticLinesSpelled()
    ensures StaticLinkLine() == "<link rel=" + "\"stylesheet\" " + "href=" + "\"styles.css\"" + ">"
    ensures StaticScriptLine() == "<script " + "src=" + "\"script.js\"" + ">" + "</script>"
  {
  }

  /** The stylesheet link of the static page is removed, with nothing else,
      when no other "<link" stands before or after it (none does on that
      page). */
  lemma StaticLinkStripped(pre: string, rest: string)
    requires NoTagIn(pre, LinkTo("styles.css")) && NoTagIn(rest, LinkTo("styles.css"))
    ensures Strip(pre + StaticLinkLine() + rest, LinkTo("styles.css")) == pre + rest
  {
    StripPatternsCanonical();
    LinkAngleOpened("styles.css");
    assert LinkTo("styles.css") in StripPatterns();
    StripRemovesElement(pre, LinkTo("styles.css"), " rel=" + "\"stylesheet\" ", '"', rest);
  }

  /** The script tag of the static page is removed, with nothing else, when
      no other "<script" stands before or after it (none does on that page). */
  lemma StaticScriptStripped(pre: string, rest: string)
    requires NoTagIn(pre, ScriptFrom("script.js")) && NoTagIn(rest, ScriptFrom("script.js"))
    ensures Strip(pre + StaticScriptLine() + rest, ScriptFrom("script.js")) == pre + rest
  {
    StripPatternsCanonical();
    ScriptAngleOpened("script.js");
    assert ScriptFrom("script.js") in StripPatterns();
    StripRemovesElement(pre, ScriptFrom("script.js"), " ", '"', rest);
  }

  /* ------------------------------------------------------- the Vite page */

  /** The opening tag up to its '>':
      `<script type="module" src="/src/main.js"`, cut at its two '='. */
  function ViteOpen(): string {
    "<script type" + "=" + "\"module\" src" + "=" + "\"/src/main.js\""
  }

  /** `<script type="module" src="/src/main.js"></script>` of the Vite page. */
  function ViteScriptLine(): string {
    ViteOpen() + ">" + "</script>"
  }

  /** Where the opening tag has its '=', its 'y', and the '/' that starts the
      source path. */
  lemma ViteOpenChars()
    ensures |ViteOpen()| == 40
    ensures '>' !in ViteOpen() && '<' !in ViteOpen()[1..]
    ensures forall x :: 0 <= x < 40 && x != 12 && x != 25 ==> ViteOpen()[x] != '='
    ensures ViteOpen()[9] == 'y' && ViteOpen()[27] == '/'
    ensures ViteOpen()[..7] == "<script"
  {
    ViteOpenAngles();
    ViteOpenEquals();
    assert ViteOpen()[..7] == "<script";
  }

  lemma ViteOpenAngles()
    ensures |ViteOpen()| == 40
    ensures '>' !in ViteOpen() && '<' !in ViteOpen()[1..]
  {
    var a, b, c := "<script type", "\"module\" src", "\"/src/main.js\"";
    var o := ViteOpen();
    assert o == a + "=" + b + "=" + c;
    forall x | 0 <= x < 40 ensures o[x] != '>' && (x > 0 ==> o[x] != '<') {
      if x < 12 {
        assert o[x] == a[x];
      } else if 12 < x < 25 {
        assert o[x] == b[x - 13];
      } else if x > 25 {
        assert o[x] == c[x - 26];
      }
    }
    assert forall x :: 0 <= x < 39 ==> o[1..][x] == o[x + 1];
  }

  lemma ViteOpenEquals()
    ensures |ViteOpen()| == 40
    ensures forall x :: 0 <= x < 40 && x != 12 && x != 25 ==> ViteOpen()[x] != '='
  {
    var a, b, c := "<script type", "\"module\" src", "\"/src/main.js\"";
    var o := ViteOpen();
    assert o == a + "=" + b + "=" + c;
    forall x | 0 <= x < 40 && x != 12 && x != 25 ensures o[x] != '=' {
      if x < 12 {
        assert o[x] == a[x];
      } else if x < 25 {
        assert o[x] == b[x - 13];
      } else {
        assert o[x] == c[x - 26];
      }
    }
  }

  /** No attribute `src=` naming `name` fits inside the opening tag, unless
      the name starts with '/'. */
  lemma ViteOpenHasNoSource(s: string, i: nat, name: string)
    requires i + |ViteScriptLine()| <= |s| && s[i..i + |ViteScriptLine()|] == ViteScriptLine()
    requires name != [] && name[0] != '/'
    ensures forall j :: i + 7 <= j && j + AttrLen(ScriptFrom(name)) <= i + 40 ==> !AttrAt(s, j, ScriptFrom(name))
  {
    var p := ScriptFrom(name);
    var o := ViteOpen();
    ViteOpenChars();
    forall x | 0 <= x < 40 ensures s[i + x] == o[x] {
      assert s[i + x] == s[i..i + |ViteScriptLine()|][x];
    }
    forall j | i + 7 <= j && j + AttrLen(p) <= i + 40 ensures !AttrAt(s, j, p) {
      var x := j + 3 - i;
      if x != 12 && x != 25 {
        assert s[j + 3] == o[x];
        CiMismatch(s, j, p.attr, 3);
      } else if x == 12 {
        assert s[j] == o[9];
        CiMismatch(s, j, p.attr, 0);
      } else {
        assert s[j + 5] == o[27];
        CiMismatch(s, j + 5, p.name, 0);
      }
    }
  }

  /** The pattern for any script name not starting with '/' does not match at
      the Vite page's script tag. */
  lemma ViteScriptNotMatched(s: string, i: nat, name: string)
    requires i + |ViteScriptLine()| <= |s| && s[i..i + |ViteScriptLine()|] == ViteScriptLine()
    requires name != [] && name[0] != '/'
    ensures NoMatchAt(s, ScriptFrom(name), i)
  {
    var p := ScriptFrom(name);
    var o := ViteOpen();
    ViteOpenChars();
    forall x | 0 <= x < 41 ensures s[i + x] == ViteScriptLine()[x] {
      assert s[i + x] == s[i..i + |ViteScriptLine()|][x];
    }
    assert s[i + 40] == '>';
    forall k | i + 7 <= k < i + 40 ensures s[k] != '>' {
      assert s[k] == o[k - i];
    }
    FirstGtAt(s, i + 7, i + 40);
    ViteOpenHasNoSource(s, i, name);
    AttrFromNone(s, i + 7, i + 40, p);
  }

  /** The Vite page's script tag survives the stripping step for every
      script name the preview strips, when no other "<script" stands before
      or after it (none does on that page). */
  lemma ViteScriptKept(pre: string, rest: string, name: string)
    requires NoTagIn(pre, ScriptFrom(name)) && NoTagIn(rest, ScriptFrom(name))
    requires name != [] && name[0] != '/'
    ensures Strip(pre + ViteScriptLine() + rest, ScriptFrom(name)) == pre + ViteScriptLine() + rest
  {
    var line := ViteScriptLine();
    var s := pre + line + rest;
    var i := |pre|;
    var p := ScriptFrom(name);
    ViteOpenChars();
    assert s[i..i + |line|] == line;
    ScriptAngleOpened(name);
    NoTagBefore(pre, line, rest, p);
    assert s[i + |line|..] == rest;
    NoTagAfter(s, i + |line|, p);
    forall k | 0 <= k < |s| ensures NoMatchAt(s, p, k) {
      if k < i || k >= i + |line| {
      } else if k == i {
        ViteScriptNotMatched(s, i, name);
      } else if k == i + 41 {
        assert s[k + 1] == line[42] == '/';
        CiMismatch(s, k, p.tag, 1);
      } else {
        if k < i + 40 {
          assert s[k] == ViteOpen()[1..][k - i - 1];
        } else {
          assert s[k] == line[k - i];
        }
        NoMatchWithoutAngle(s, p, k);
      }
    }
    StripKeepsRun(s, p, 0, |s|);
    assert s[0..|s|] == s;
    assert s[0..] == s;
  }
}
