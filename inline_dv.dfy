/**
 * The Inline-Detail-View plugin's view of a table's hook file: the plugin is bound to one
 * application table, finds the hook file of that table, extracts the text of one hook
 * function from it, and reports the plugin as installed when the `<table>_init` hook holds
 * the plugin's marker comment.
 */
module InlineDV {
  import opened Wrappers
  import opened PhpText

  /** The exceptions the constructor throws and the messages getHookCode reports. */
  datatype PluginError =
    | UnableToGetTableList
    | UnknownTable
    | UnableToAccessHookFile
    | CouldNotDetermineFunctionLocation

  function ErrorMessage(e: PluginError): string {
    match e
    case UnableToGetTableList => "Unable to get table list"
    case UnknownTable => "Unknown table"
    case UnableToAccessHookFile => "Unable to access hook file"
    case CouldNotDetermineFunctionLocation => "Could not determine correct function location"
  }

  /**
   * The entry `getTableList(true)` gives for one table (caption, description, icon, ...);
   * an empty entry is falsy.
   */
  type TableEntry = seq<string>

  /** A constructed plugin: the table it is bound to, that table's entry, and the application path. */
  datatype Plugin = Plugin(tn: string, table: TableEntry, appPath: string)

  /**
   * The constructor's table check: a missing or empty table list fails with "Unable to get
   * table list"; a table that is not listed, or listed with an empty entry, fails with
   * "Unknown table"; otherwise the plugin records the table name and its entry.
   */
  function NewPlugin(tn: string, tables: Option<map<string, TableEntry>>, appPath: string): (r: Result<Plugin, PluginError>)
    ensures r == Err(UnableToGetTableList) <==> tables.None? || tables.value == map[]
    ensures r == Err(UnknownTable) <==>
      tables.Some? && tables.value != map[] && (tn !in tables.value || tables.value[tn] == [])
    ensures r.Ok? ==> tn in tables.value && r.value == Plugin(tn, tables.value[tn], appPath) && r.value.table != []
  {
    if tables.None? || tables.value == map[] then Err(UnableToGetTableList)
    else if tn !in tables.value || tables.value[tn] == [] then Err(UnknownTable)
    else Ok(Plugin(tn, tables.value[tn], appPath))
  }

  /** `getFileName`: the application path, the directory separator, then `hooks/<table>.php`. */
  function FileName(p: Plugin, sep: char): (path: string)
    ensures |path| == |p.appPath| + 7 + |p.tn| + 4
    ensures path[..|p.appPath|] == p.appPath && path[|p.appPath|] == sep
    ensures path[|path| - 4..] == ".php"
    ensures path[|p.appPath| + 1..] == "hooks/" + p.tn + ".php"
  {
    p.appPath + [sep] + "hooks/" + p.tn + ".php"
  }

  /** Two tables of the same application never share a hook file. */
  lemma FileNameInjective(p: Plugin, q: Plugin, sep: char)
    requires p.appPath == q.appPath
    requires FileName(p, sep) == FileName(q, sep)
    ensures p.tn == q.tn
  {
    var a, b := FileName(p, sep), FileName(q, sep);
    var n := |p.appPath| + 7;
    assert p.tn == a[n..|a| - 4];
    assert q.tn == b[n..|b| - 4];
  }

  // ------------------------------------------------------------ the two declaration patterns

  /** What follows `function` and whitespace: the hook's own name (literal, any case), or any `[a-z0-9_]+` name. */
  datatype NamePattern = Named(name: string) | AnyName

  /** A hook name that the regular expression reads literally: a non-empty run of word characters. */
  predicate IsIdentifier(n: string) {
    |n| > 0 && forall k :: 0 <= k < |n| ==> IsWordChar(n[k])
  }

  /** The end of the name that starts at `j`, if the pattern matches a name there. */
  function NameEnd(s: string, j: nat, pat: NamePattern): (e: Option<nat>)
    requires j <= |s|
    ensures e.Some? ==> j < e.value <= |s| || (pat.Named? && pat.name == [] && e.value == j)
  {
    match pat
    case Named(n) => if j + |n| <= |s| && CaseEq(s[j..j + |n|], n) then Some(j + |n|) else None
    case AnyName => var e := SkipWord(s, j); if j < e then Some(e) else None
  }

  /**
   * The explicit matcher for `/function\s+NAME\s*\(/i` anchored at `i`: `function` in any
   * case, at least one whitespace character, the name, optional whitespace, then `(`.
   */
  predicate DeclAt(s: string, i: nat, pat: NamePattern) {
    && i + 8 <= |s| && CaseEq(s[i..i + 8], "function")
    && var j := SkipSpaces(s, i + 8);
    && i + 8 < j
    && var e := NameEnd(s, j, pat);
    && e.Some?
    && var m := SkipSpaces(s, e.value);
    && m < |s| && s[m] == '('
  }

  predicate SpacesIn(s: string, a: nat, b: nat)
    requires a <= b <= |s|
  {
    forall k :: a <= k < b ==> IsPcreSpace(s[k])
  }

  predicate NameIn(s: string, j: nat, e: nat, pat: NamePattern)
    requires j <= e <= |s|
  {
    match pat
    case Named(n) => CaseEq(s[j..e], n)
    case AnyName => j < e && forall k :: j <= k < e ==> IsWordChar(s[k])
  }

  /** What the regular expression means at `i`: some split of the text into the five parts of the pattern. */
  ghost predicate RegexDeclAt(s: string, i: nat, pat: NamePattern) {
    exists j: nat, e: nat, m: nat ::
      && i + 8 < j <= e <= m < |s|
      && CaseEq(s[i..i + 8], "function") && SpacesIn(s, i + 8, j)
      && NameIn(s, j, e, pat) && SpacesIn(s, e, m) && s[m] == '('
  }

  /** A character equal up to case to a word character is not whitespace. */
  lemma FoldedWordIsNotSpace(c: char, w: char)
    requires IsWordChar(w) && Lower(c) == Lower(w)
    ensures !IsPcreSpace(c)
  {
  }

  /** The five parts of a declaration, wherever the runs of whitespace and the name end, are what the matcher finds. */
  lemma DeclAtFromParts(s: string, i: nat, pat: NamePattern, j: nat, e: nat, m: nat)
    requires pat.Named? ==> IsIdentifier(pat.name)
    requires i + 8 < j <= e <= m < |s|
    requires CaseEq(s[i..i + 8], "function") && SpacesIn(s, i + 8, j)
    requires NameIn(s, j, e, pat) && SpacesIn(s, e, m) && s[m] == '('
    ensures DeclAt(s, i, pat)
  {
    if pat.Named? {
      assert Lower(s[j]) == Lower(pat.name[0]);
      FoldedWordIsNotSpace(s[j], pat.name[0]);
    }
    SkipSpacesStopsAt(s, i + 8, j);
    if pat.AnyName? {
      SkipWordStopsAt(s, j, e);
    }
    assert NameEnd(s, j, pat) == Some(e);
    SkipSpacesStopsAt(s, e, m);
  }

  /**
   * The matcher agrees with the regular expression at every position, for the hook's own
   * name (an identifier) and for the any-name pattern: greedy skipping loses no match.
   */
  lemma DeclMatcherAgrees(s: string, i: nat, pat: NamePattern)
    requires pat.Named? ==> IsIdentifier(pat.name)
    ensures DeclAt(s, i, pat) <==> RegexDeclAt(s, i, pat)
  {
    if DeclAt(s, i, pat) {
      var j := SkipSpaces(s, i + 8);
      var e := NameEnd(s, j, pat).value;
      var m := SkipSpaces(s, e);
      assert SpacesIn(s, i + 8, j) && SpacesIn(s, e, m);
      assert NameIn(s, j, e, pat);
    }
    if RegexDeclAt(s, i, pat) {
      var j: nat, e: nat, m: nat :|
        && i + 8 < j <= e <= m < |s|
        && CaseEq(s[i..i + 8], "function") && SpacesIn(s, i + 8, j)
        && NameIn(s, j, e, pat) && SpacesIn(s, e, m) && s[m] == '(';
      DeclAtFromParts(s, i, pat, j, e, m);
    }
  }

  /** `preg_match` with an offset: the leftmost declaration starting at or after `from`. */
  function FindDecl(s: string, from: nat, pat: NamePattern): (r: Option<nat>)
    ensures r.Some? ==> from <= r.value && DeclAt(s, r.value, pat)
    ensures r.Some? ==> forall k: nat :: from <= k < r.value ==> !DeclAt(s, k, pat)
    ensures r.None? ==> forall k: nat :: from <= k ==> !DeclAt(s, k, pat)
    decreases |s| - from
  {
    if |s| < from + 8 then None
    else if DeclAt(s, from, pat) then Some(from)
    else FindDecl(s, from + 1, pat)
  }

  // ------------------------------------------------------------ getHookCode and is_installed

  /** Where the hook function's text ends: the next declaration at or after `start + 10`, else the end of the file. */
  function HookEnd(s: string, start: nat): (nf: nat)
    requires start <= |s|
    ensures start + 10 <= nf <= |s| || nf == |s|
    ensures forall k: nat :: start + 10 <= k < nf ==> !DeclAt(s, k, AnyName)
    ensures nf < |s| ==> DeclAt(s, nf, AnyName)
  {
    match FindDecl(s, start + 10, AnyName)
    case Some(n) => n
    case None => |s|
  }

  /**
   * `getHookCode`: unreadable or falsy contents and a missing declaration are errors;
   * otherwise the text from the first declaration of the hook up to the next declaration.
   */
  function GetHookCode(contents: Option<string>, hook: string): (r: Result<string, PluginError>)
    ensures r.Err? ==> r.error == UnableToAccessHookFile || r.error == CouldNotDetermineFunctionLocation
    ensures r == Err(UnableToAccessHookFile) <==> !Truthy(contents)
    ensures r == Err(CouldNotDetermineFunctionLocation) <==>
      Truthy(contents) && forall k: nat :: !DeclAt(contents.value, k, Named(hook))
  {
    if !Truthy(contents) then Err(UnableToAccessHookFile)
    else
      var s := contents.value;
      match FindDecl(s, 0, Named(hook))
      case None => Err(CouldNotDetermineFunctionLocation)
      case Some(hf) => Ok(s[hf..HookEnd(s, hf)])
  }

  /**
   * A successful extraction is the slice of the file that starts at the first declaration
   * of the hook (so it begins with `function`, in some case) and runs up to, not including,
   * the first declaration at or after ten characters in, or to the end of the file.
   * Extraction succeeds exactly when such a first declaration `hf` exists.
   */
  lemma HookCodeIsFunctionSlice(s: string, hook: string, hf: nat)
    requires Truthy(Some(s)) && FindDecl(s, 0, Named(hook)) == Some(hf)
    ensures GetHookCode(Some(s), hook) == Ok(s[hf..HookEnd(s, hf)])
    ensures DeclAt(s, hf, Named(hook)) && forall k: nat :: k < hf ==> !DeclAt(s, k, Named(hook))
    ensures forall k: nat :: hf + 10 <= k < HookEnd(s, hf) ==> !DeclAt(s, k, AnyName)
    ensures HookEnd(s, hf) == |s| || DeclAt(s, HookEnd(s, hf), AnyName)
  {
  }

  /** The extracted text begins with the word `function`, in some case. */
  lemma HookCodeBeginsWithFunction(s: string, hook: string, hf: nat)
    requires FindDecl(s, 0, Named(hook)) == Some(hf)
    ensures hf + 8 <= HookEnd(s, hf) && CaseEq(s[hf..HookEnd(s, hf)][..8], "function")
  {
    var nf := HookEnd(s, hf);
    assert CaseEq(s[hf..hf + 8], "function");
    assert s[hf..nf][..8] == s[hf..hf + 8];
  }

  /** The marker comment the plugin's installer places in the hook. */
  const Marker := "// DO NOT DELETE THIS LINE"

  /**
   * `is_installed`: the `<table>_init` hook of the table's hook file (read by `files`) is
   * non-empty and holds the marker; any extraction error reads as not installed.
   */
  function IsInstalled(p: Plugin, sep: char, files: string -> Option<string>): (installed: bool)
    ensures installed <==>
      var code := GetHookCode(files(FileName(p, sep)), p.tn + "_init");
      code.Ok? && exists k: nat :: OccursAt(code.value, Marker, k)
  {
    match GetHookCode(files(FileName(p, sep)), p.tn + "_init")
    case Err(_) => false
    case Ok(code) => |code| != 0 && StrPos(code, Marker, 0).Some?
  }

  /**
   * An installed plugin's marker lies in the hook file itself, inside the `<table>_init`
   * function: after its first declaration and before the next declaration.
   */
  lemma InstalledMarkerInsideInitHook(p: Plugin, sep: char, files: string -> Option<string>)
    requires IsInstalled(p, sep, files)
    ensures var s := files(FileName(p, sep)).value;
      var hf := FindDecl(s, 0, Named(p.tn + "_init")).value;
      exists k: nat :: hf <= k && k + |Marker| <= HookEnd(s, hf) && OccursAt(s, Marker, k)
  {
    var contents := files(FileName(p, sep));
    var hook := p.tn + "_init";
    var code := GetHookCode(contents, hook);
    var s := contents.value;
    var hf := FindDecl(s, 0, Named(hook)).value;
    assert code.value == s[hf..HookEnd(s, hf)];
    MarkerInsideSlice(s, hf, HookEnd(s, hf), code.value);
  }

  /** A marker found in a slice of the file lies in the file, within that slice. */
  lemma MarkerInsideSlice(s: string, lo: nat, hi: nat, code: string)
    requires lo <= hi <= |s| && code == s[lo..hi]
    requires exists k: nat :: OccursAt(code, Marker, k)
    ensures exists k: nat :: lo <= k && k + |Marker| <= hi && OccursAt(s, Marker, k)
  {
    var j: nat :| OccursAt(code, Marker, j);
    OccursInSlice(s, lo, hi - lo, Marker, j);
  }

  /** A text without a declaration of the init hook is never reported as installed, whatever it holds. */
  lemma NoInitHookMeansNotInstalled(p: Plugin, sep: char, files: string -> Option<string>)
    requires Truthy(files(FileName(p, sep)))
    requires forall k: nat :: !DeclAt(files(FileName(p, sep)).value, k, Named(p.tn + "_init"))
    ensures !IsInstalled(p, sep, files)
  {
  }
}
