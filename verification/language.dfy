/** The editor's file-name to language mapping (`getLanguageFromFileName`).

    The extension is the text after the last '.', or the whole name when it has
    no '.', lower-cased; it is looked up in a fixed table, and anything the
    table does not give falls back to "plaintext". */
module Language {
  import opened Wrappers
  import opened Strings

  /** The text after the last '.', or all of `name` when it has none: the last
      element of `name.split(".")`. */
  function LastSegment(name: string): (r: string)
    ensures '.' !in r
    ensures |r| <= |name| && r == name[|name| - |r|..]
    ensures |r| < |name| ==> name[|name| - |r| - 1] == '.'
  {
    if name == [] then []
    else if name[|name| - 1] == '.' then []
    else LastSegment(name[..|name| - 1]) + [name[|name| - 1]]
  }

  /** The lower-cased extension the table is indexed by. */
  function Extension(name: string): string {
    Lower(LastSegment(name))
  }

  /** The table's own entries. */
  function Table(key: string): (r: Option<string>)
    ensures r.Some? ==> r.value in Languages() && r.value != "plaintext"
  {
    match key
    case "js" => Some("javascript")
    case "jsx" => Some("javascript")
    case "ts" => Some("typescript")
    case "tsx" => Some("typescript")
    case "html" => Some("html")
    case "css" => Some("css")
    case "scss" => Some("scss")
    case "json" => Some("json")
    case "md" => Some("markdown")
    case "vue" => Some("html")
    case "py" => Some("python")
    case "go" => Some("go")
    case "rs" => Some("rust")
    case _ => None
  }

  /** Every language the mapping can return. */
  function Languages(): set<string> {
    {"javascript", "typescript", "html", "css", "scss", "json", "markdown", "python", "go", "rust", "plaintext"}
  }

  /** The language for a file name, with the table read as own entries only. */
  function LanguageOf(name: string): (r: string)
    ensures r in Languages()
    ensures r == "plaintext" <==> Table(Extension(name)).None?
  {
    Table(Extension(name)).GetOr("plaintext")
  }

  /** Indexing a plain object literal also finds the members every object
      inherits. Of their names, only these two are already lower-case, so only
      these survive the lower-casing of the extension. */
  function InheritedKeys(): set<string> {
    {"constructor", "__proto__"}
  }

  /** What `languageMap[key]` yields: an own entry, an inherited member (a
      function or an object, not a string), or nothing. */
  datatype Lookup = Entry(language: string) | InheritedMember(key: string) | Nothing

  function LookupAsWritten(key: string): (r: Lookup)
    ensures r.Entry? <==> Table(key).Some?
    ensures r.InheritedMember? <==> key in InheritedKeys()
  {
    match Table(key)
    case Some(l) => Entry(l)
    case None => if key in InheritedKeys() then InheritedMember(key) else Nothing
  }

  /** `languageMap[ext || ""] || "plaintext"` as written: the fallback applies
      only when the lookup yields nothing, since every entry and every
      inherited member is truthy. */
  function LanguageAsWritten(name: string): Lookup {
    match LookupAsWritten(Extension(name))
    case Nothing => Entry("plaintext")
    case other => other
  }

  /** The mapping as written agrees with `LanguageOf` except on the two
      inherited names, where it returns an inherited member instead of a
      language. */
  lemma AsWrittenDiffersOnlyOnInherited(name: string)
    ensures Extension(name) !in InheritedKeys() ==> LanguageAsWritten(name) == Entry(LanguageOf(name))
    ensures Extension(name) in InheritedKeys() ==> LanguageAsWritten(name) == InheritedMember(Extension(name))
  {
  }

  /** No inherited key is one of the table's own entries. */
  lemma InheritedKeysNotInTable(key: string)
    requires key in InheritedKeys()
    ensures Table(key).None?
  {
  }

  /** A name ending in ".constructor", "index.constructor" for one, is mapped
      to an inherited member, not a language. (The name is written as three
      parts so that the verifier does not unfold `LastSegment` on a literal.) */
  lemma ConstructorExtensionNotALanguage(prefix: string)
    ensures LanguageAsWritten(prefix + "." + "constructor") == InheritedMember("constructor")
    ensures LanguageOf(prefix + "." + "constructor") == "plaintext"
  {
    LowerCaseExtension(prefix, "constructor");
    assert Table("constructor") == None;
  }

  /** A lower-case extension is looked up as it is written. */
  lemma LowerCaseExtension(prefix: string, ext: string)
    requires '.' !in ext
    requires NoUpper(ext)
    ensures Extension(prefix + "." + ext) == ext
  {
    LastSegmentAfterDot(prefix, ext);
    LowerFixesLowerCase(ext);
  }

  /** Lower-casing keeps every '.' where it is and makes no new one. */
  lemma LowerKeepsDots(s: string)
    ensures forall i :: 0 <= i < |s| ==> (Lower(s)[i] == '.' <==> s[i] == '.')
  {
  }

  /** The last segment of the lower-cased name is the lower-cased last segment. */
  lemma {:induction false} LastSegmentLower(name: string)
    ensures LastSegment(Lower(name)) == Lower(LastSegment(name))
  {
    if name != [] {
      var n := |name|;
      var init, c := name[..n - 1], name[n - 1];
      var low := Lower(name);
      assert init + [c] == name;
      LowerAppend(init, [c]);
      assert low == Lower(init) + [LowerChar(c)];
      assert low[n - 1] == LowerChar(c);
      if c == '.' {
        assert low[n - 1] == '.';
      } else {
        assert low[n - 1] != '.';
        assert low[..n - 1] == Lower(init);
        LastSegmentLower(init);
        assert LastSegment(low) == Lower(LastSegment(init)) + [LowerChar(c)];
        LowerAppend(LastSegment(init), [c]);
      }
    }
  }

  /** The result ignores letter case. */
  lemma LanguageIgnoresCase(name: string)
    ensures LanguageOf(Lower(name)) == LanguageOf(name)
  {
    LastSegmentLower(name);
    LowerIdempotent(LastSegment(name));
  }

  /** Only the last segment matters: any prefix ending in '.' can be put in
      front of a dot-free name. */
  lemma {:induction false} LastSegmentAfterDot(prefix: string, seg: string)
    requires '.' !in seg
    ensures LastSegment(prefix + "." + seg) == seg
    decreases |seg|
  {
    var name := prefix + "." + seg;
    if seg == [] {
      assert name[|name| - 1] == '.';
    } else {
      var init := seg[..|seg| - 1];
      assert name[..|name| - 1] == prefix + "." + init;
      LastSegmentAfterDot(prefix, init);
      assert init + [seg[|seg| - 1]] == seg;
    }
  }

  lemma LanguageOfLastSegment(prefix: string, seg: string)
    requires '.' !in seg
    ensures LanguageOf(prefix + "." + seg) == LanguageOf(seg)
  {
    LastSegmentAfterDot(prefix, seg);
  }

  /** A name without '.' is its own extension, so a file called "go" or "md"
      is highlighted as that language. */
  lemma {:induction false} NoDotIsWholeName(name: string)
    requires '.' !in name
    ensures LastSegment(name) == name
  {
    var r := LastSegment(name);
    assert |r| == |name|;
  }

  /** A file's language is the table's entry for its lower-cased last segment. */
  lemma LanguageOfExtension(prefix: string, ext: string)
    requires '.' !in ext
    ensures LanguageOf(prefix + "." + ext) == Table(Lower(ext)).GetOr("plaintext")
  {
    LastSegmentAfterDot(prefix, ext);
  }

  /** Upper case is folded: "A.TEST.TS" is TypeScript. */
  lemma UpperCaseExtension()
    ensures LanguageOf("A.TEST.TS") == "typescript"
  {
    LastSegmentAfterDot("A.TEST", "TS");
    assert "A.TEST" + "." + "TS" == "A.TEST.TS";
    assert Lower("TS") == "ts";
  }

  /** A trailing '.' gives the empty extension, which is not in the table. */
  lemma TrailingDotIsPlaintext()
    ensures LanguageOf("notes.") == "plaintext"
  {
    assert LastSegment("notes.") == "";
  }

  /** A name without '.' is looked up whole: a file called "md" is Markdown. */
  lemma WholeNameLookup()
    ensures LanguageOf("md") == "markdown"
  {
    WholeNameExtension();
    assert Table("md") == Some("markdown");
  }

  lemma WholeNameExtension()
    ensures Extension("md") == "md"
  {
    assert LastSegment("md") == "md";
    assert Lower("md") == "md";
  }

  /** A name without '.' that is no table key is plain text. */
  lemma WholeNameFallback()
    ensures LanguageOf("Makefile") == "plaintext"
  {
    MakefileExtension();
    assert Table("makefile") == None;
  }

  lemma MakefileExtension()
    ensures Extension("Makefile") == "makefile"
  {
    assert ['M'] + "akefile" == "Makefile";
    WholeNameCapitalised('M', "akefile");
  }

  /** A dot-free name whose only capital is its first letter. */
  lemma WholeNameCapitalised(c: char, rest: string)
    requires c != '.' && '.' !in rest
    requires NoUpper(rest)
    ensures Extension([c] + rest) == [LowerChar(c)] + rest
  {
    NoDotIsWholeName([c] + rest);
    LowerAppend([c], rest);
    LowerFixesLowerCase(rest);
  }
}
