/**
 * The PMC preprocessor (clsPmacParser): a pmc file is read line by line; comments may be
 * cut, blank lines become empty entries, "#define NAME VALUE" lines bind macros (the value
 * expanded with the macros known so far), "#include" lines splice in the lines of another
 * file, and every other line comes out with the macros expanded, longest name first, and
 * the line-end characters trimmed.
 *
 * The file system is a parameter: the file's text (None when it cannot be opened), its
 * absolute path and directory, and for an include name what parsing the file found for it
 * gave (None when no include path holds it).
 */
module Preprocessor {
  import opened Py

  // ---------------------------------------------------------------- the lines of a file

  /** The text before the first '\n'. */
  function Body(s: string): (r: string)
    ensures r <= s && '\n' !in r
    ensures |r| < |s| ==> s[|r|] == '\n'
  {
    match FirstIndex(s, '\n')
    case None => s
    case Some(i) => s[..i]
  }

  /**
   * What iterating over an open file yields: every line up to and including its '\n', the
   * last one without it when the text does not end in '\n'; never an empty line.
   */
  function FileLines(text: string): (r: seq<string>)
    ensures forall k :: 0 <= k < |r| ==> |r[k]| > 0 && '\n' !in r[k][..|r[k]| - 1]
    decreases |text|
  {
    if |text| == 0 then []
    else match FirstIndex(text, '\n')
      case None => [text]
      case Some(i) => [text[..i + 1]] + FileLines(text[i + 1..])
  }

  function Joined(lines: seq<string>): string
  {
    if |lines| == 0 then "" else lines[0] + Joined(lines[1..])
  }

  // ---------------------------------------------------------------- macro substitution

  /** Python's a < b on str: the first differing character decides, a proper prefix comes first. */
  predicate LexLess(a: string, b: string)
    decreases |a|
  {
    |b| > 0 && (|a| == 0 || a[0] < b[0] || (a[0] == b[0] && LexLess(a[1..], b[1..])))
  }

  /**
   * a comes before b in substitute_macros' order: the (length, name) pairs sorted and then
   * reversed, so longer names first and, among names of one length, the greater name first.
   */
  predicate Before(a: string, b: string)
  {
    |a| > |b| || (|a| == |b| && LexLess(b, a))
  }

  predicate IsFirst(k: string, keys: set<string>)
  {
    k in keys && forall j :: j in keys && j != k ==> Before(k, j)
  }

  /** The macro names in the order substitute_macros applies them (see OrderedSorted). */
  function Ordered(keys: set<string>): (r: seq<string>)
    ensures |r| == |keys|
    ensures forall i :: 0 <= i < |r| ==> r[i] in keys
    decreases |keys|
  {
    if keys == {} then []
    else
      FirstExists(keys);
      FirstUnique(keys);
      var k :| IsFirst(k, keys);
      [k] + Ordered(keys - {k})
  }

  /** text.replace(k, macros[k]) for each of the first n names k of ks in turn. */
  function ReplaceAll(text: string, ks: seq<string>, n: nat, macros: map<string, string>): string
    requires n <= |ks| && forall i :: 0 <= i < |ks| ==> ks[i] in macros
  {
    if n == 0 then text
    else Replace(ReplaceAll(text, ks, n - 1, macros), ks[n - 1], macros[ks[n - 1]])
  }

  /** substitute_macros: every macro replaced throughout the text, longest name first. */
  function Substitute(macros: map<string, string>, text: string): string
  {
    var ks := Ordered(macros.Keys);
    ReplaceAll(text, ks, |ks|, macros)
  }

  // ---------------------------------------------------------------- one line

  /**
   * Whether a line starts with '#' and the directive in lower or upper case, followed by a
   * word boundary (the end of the line or a character that is not a letter, digit or '_').
   */
  predicate IsDirective(line: string, lower: string, upper: string)
  {
    var n := |lower| + 1;
    |line| >= n && line[0] == '#' && (line[1..n] == lower || line[1..n] == upper) &&
    (|line| == n || !IsWordChar(line[n]))
  }

  predicate EndsWith(s: string, w: string)
  {
    |w| <= |s| && s[|s| - |w|..] == w
  }

  /**
   * What findall gives for "(?<=word\b|WORD\b).*$" on a directive line: the rest of the line
   * up to its '\n', and then an empty match when that rest itself ends with the word (the
   * look-behind holds again where the first match ended).
   */
  function Arguments(line: string, lower: string, upper: string): (r: seq<string>)
    requires |line| >= |lower| + 1
    ensures 1 <= |r| <= 2 && r[0] == Body(line[|lower| + 1..])
  {
    var b := Body(line[|lower| + 1..]);
    [b] + (if EndsWith(b, lower) || EndsWith(b, upper) then [""] else [])
  }

  const Blanks: set<char> := {' ', '\t'}

  /**
   * re.split(r'[ \t]+', t, 1) as a pair: the text before the first run of spaces and tabs
   * and the text after it; None when t has no space or tab, where taking the second part
   * raises IndexError.
   */
  function SplitAtBlanks(t: string): (r: Option<(string, string)>)
    ensures r.None? <==> forall i :: 0 <= i < |t| ==> t[i] !in Blanks
    ensures r.Some? ==> (forall i :: 0 <= i < |r.value.0| ==> r.value.0[i] !in Blanks) && r.value.0 <= t
    decreases |t|
  {
    if |t| == 0 then None
    else if t[0] in Blanks then Some(("", LStrip(t, Blanks)))
    else match SplitAtBlanks(t[1..])
      case None => None
      case Some(p) => Some(([t[0]] + p.0, p.1))
  }

  /**
   * The define statements of one line, in turn: each is stripped and split into name and
   * value, and the name bound to the value with the macros known so far expanded in it. The
   * flag says that a statement had no value: IndexError, with the earlier bindings kept.
   */
  function Define(macros: map<string, string>, stmts: seq<string>, k: nat): (r: (map<string, string>, bool))
    decreases |stmts| - k
  {
    if k >= |stmts| then (macros, false)
    else match SplitAtBlanks(Strip(stmts[k], Whitespace))
      case None => (macros, true)
      case Some(p) => Define(macros[p.0 := Substitute(macros, p.1)], stmts, k + 1)
  }

  /**
   * The entries one include statement adds: the lines of the file it names, or one empty
   * entry when no include path holds it or parsing it gave nothing. An empty name joins the
   * file's own directory with "/", which exists but cannot be opened as a file, so it too
   * gives one empty entry.
   */
  function IncludeEntries(includes: map<string, seq<string>>, stmt: string): (r: seq<string>)
    ensures |r| >= 1
  {
    var name := Strip(stmt, {' ', '"', '\r'});
    if name == "" || name !in includes || includes[name] == [] then [""] else includes[name]
  }

  /** The entries of the first k include statements of one line, in turn. */
  function Included(includes: map<string, seq<string>>, stmts: seq<string>, k: nat): (r: seq<string>)
    requires k <= |stmts|
    ensures |r| >= k
  {
    if k == 0 then [] else Included(includes, stmts, k - 1) + IncludeEntries(includes, stmts[k - 1])
  }

  /**
   * The line-end characters removed from an expanded line: '\r', then '\n', then '\t', then
   * both '\r' and '\n', one after the other; from both ends, or only from the right when
   * comments are kept.
   */
  function Trim(s: string, comments: bool): (r: string)
    ensures |r| > 0 ==> r[|r| - 1] != '\r' && r[|r| - 1] != '\n'
    ensures !comments && |r| > 0 ==> r[0] != '\r' && r[0] != '\n'
  {
    var t := TrimSingles(s, comments);
    if comments then RStrip(t, {'\r', '\n'}) else Strip(t, {'\r', '\n'})
  }

  /** The first three of Trim's steps. */
  function TrimSingles(s: string, comments: bool): string
  {
    if comments then RStrip(RStrip(RStrip(s, {'\r'}), {'\n'}), {'\t'})
    else Strip(Strip(Strip(s, {'\r'}), {'\n'}), {'\t'})
  }

  /** How parse is called: keep comments, plant debug lines, the file's absolute path, and the include files. */
  datatype Options = Options(
    comments: bool,
    debug: bool,
    path: string,
    includes: map<string, seq<string>>)

  /** The simulation debug line planted before line n. */
  function DebugLine(path: string, n: int): string
  {
    ";#* " + path + " " + Dec(n)
  }

  /** The line as classified: with comments cut, everything from the first ';' on is gone. */
  function Uncommented(line: string, comments: bool): string
  {
    if comments then line else Split(line, ';')[0]
  }

  /** What one line adds to the output, the macros after it, and whether it raised IndexError. */
  datatype Step = Step(output: seq<string>, macros: map<string, string>, failed: bool)

  /** The processing of line n (counted from 1). */
  function Expand(opts: Options, macros: map<string, string>, line: string, n: int): (s: Step)
    ensures !s.failed ==> |s.output| >= 1 + (if opts.debug then 1 else 0)
    ensures !IsDirective(Uncommented(line, opts.comments), "include", "INCLUDE") ==>
              |s.output| == 1 + (if opts.debug then 1 else 0)
  {
    var debug := if opts.debug then [DebugLine(opts.path, n)] else [];
    var text := Uncommented(line, opts.comments);
    if AllSpace(text) then Step(debug + [""], macros, false)
    else if IsDirective(text, "define", "DEFINE") then
      var d := Define(macros, Arguments(text, "define", "DEFINE"), 0);
      Step(debug + [""], d.0, d.1)
    else if IsDirective(text, "include", "INCLUDE") then
      var stmts := Arguments(text, "include", "INCLUDE");
      Step(debug + Included(opts.includes, stmts, |stmts|), macros, false)
    else Step(debug + [Trim(Substitute(macros, text), opts.comments)], macros, false)
  }

  /**
   * The lines from index k on processed in order (line k + 1 first) with the macros given;
   * processing stops at the line that raised, whose own entries are kept.
   */
  function Run(opts: Options, macros: map<string, string>, lines: seq<string>, k: nat): (s: Step)
    requires k <= |lines|
    decreases |lines| - k
  {
    if k == |lines| then Step([], macros, false)
    else
      var e := Expand(opts, macros, lines[k], k + 1);
      if e.failed then e
      else
        var r := Run(opts, e.macros, lines, k + 1);
        Step(e.output + r.output, r.macros, r.failed)
  }

  /** A processing result with earlier entries in front of its own. */
  function After(earlier: seq<string>, s: Step): Step
  {
    Step(earlier + s.output, s.macros, s.failed)
  }

  /** What parse leaves: its outcome, the output list, and the caller's macro dictionary. */
  datatype Parsed = Parsed(res: Result<Option<seq<string>>>, output: seq<string>, macros: map<string, string>)

  /**
   * parse: None when the file cannot be opened; otherwise the output of all its lines, or
   * IndexError from a define statement without a value.
   */
  function Preprocessed(file: Option<string>, macros: map<string, string>, opts: Options): (p: Parsed)
  {
    match file
    case None => Parsed(Ok(None), [], macros)
    case Some(text) =>
      var lines := FileLines(text);
      var s := Run(opts, macros, lines, 0);
      Parsed(if s.failed then Raised(IndexError) else Ok(Some(s.output)), s.output, s.macros)
  }

  // ---------------------------------------------------------------- the order of the names

  lemma {:induction false} LexAsymmetric(a: string, b: string)
    ensures LexLess(a, b) ==> !LexLess(b, a)
    decreases |a|
  {
    if |a| > 0 && |b| > 0 && a[0] == b[0] {
      LexAsymmetric(a[1..], b[1..]);
    }
  }

  lemma {:induction false} LexTotal(a: string, b: string)
    ensures a == b || LexLess(a, b) || LexLess(b, a)
    decreases |a|
  {
    if |a| > 0 && |b| > 0 && a[0] == b[0] {
      LexTotal(a[1..], b[1..]);
      if a[1..] == b[1..] {
        assert a == [a[0]] + a[1..] && b == [b[0]] + b[1..];
      }
    }
  }

  lemma {:induction false} LexTransitive(a: string, b: string, c: string)
    requires LexLess(a, b) && LexLess(b, c)
    ensures LexLess(a, c)
    decreases |a|
  {
    if |a| > 0 && a[0] == b[0] && b[0] == c[0] {
      LexTransitive(a[1..], b[1..], c[1..]);
    }
  }

  lemma BeforeAsymmetric()
    ensures forall a, b :: Before(a, b) ==> !Before(b, a)
  {
    forall a, b | Before(a, b)
      ensures !Before(b, a)
    {
      LexAsymmetric(b, a);
    }
  }

  lemma BeforeTotal(a: string, b: string)
    ensures a == b || Before(a, b) || Before(b, a)
  {
    LexTotal(a, b);
  }

  lemma BeforeTransitive(a: string, b: string, c: string)
    requires Before(a, b) && Before(b, c)
    ensures Before(a, c)
  {
    if |a| == |b| == |c| {
      LexTransitive(c, b, a);
    }
  }

  /** At most one name of a set comes before all the others. */
  lemma FirstUnique(keys: set<string>)
    ensures forall a, b :: IsFirst(a, keys) && IsFirst(b, keys) ==> a == b
  {
    forall a, b | IsFirst(a, keys) && IsFirst(b, keys)
      ensures a == b
    {
      if a != b {
        LexAsymmetric(a, b);
      }
    }
  }

  /** Ordered(keys) is the first name followed by the others in order. */
  lemma OrderedFirst(keys: set<string>, k: string)
    requires IsFirst(k, keys)
    ensures Ordered(keys) == [k] + Ordered(keys - {k})
  {
    FirstUnique(keys);
  }

  /** The names come out each exactly once: a permutation of the set, whose size is its length. */
  lemma {:induction false} OrderedMembers(keys: set<string>)
    ensures forall x :: x in Ordered(keys) <==> x in keys
    decreases |keys|
  {
    if keys != {} {
      FirstExists(keys);
      var k :| IsFirst(k, keys);
      OrderedFirst(keys, k);
      OrderedMembers(keys - {k});
      forall x
        ensures x in Ordered(keys) <==> x in keys
      {
        if x != k {
          assert x in Ordered(keys) <==> x in Ordered(keys - {k});
        }
      }
    }
  }

  /** Longer names come before shorter ones and, among names of one length, the greater before the lesser. */
  lemma {:induction false} OrderedSorted(keys: set<string>)
    ensures forall i, j :: 0 <= i < j < |Ordered(keys)| ==> Before(Ordered(keys)[i], Ordered(keys)[j])
    decreases |keys|
  {
    if keys != {} {
      FirstExists(keys);
      var k :| IsFirst(k, keys);
      OrderedFirst(keys, k);
      var rest := Ordered(keys - {k});
      OrderedSorted(keys - {k});
      var r := [k] + rest;
      forall i, j | 0 <= i < j < |r|
        ensures Before(r[i], r[j])
      {
        if i > 0 {
          assert r[i] == rest[i - 1] && r[j] == rest[j - 1];
        } else {
          assert r[j] == rest[j - 1];
        }
      }
    }
  }

  /** A non-empty set of names has a first one in the order. */
  lemma {:induction false} FirstExists(keys: set<string>)
    requires keys != {}
    ensures exists k :: IsFirst(k, keys)
    decreases |keys|
  {
    var x :| x in keys;
    var rest := keys - {x};
    if rest == {} {
      assert keys == {x};
      assert IsFirst(x, keys);
    } else {
      FirstExists(rest);
      var m :| IsFirst(m, rest);
      BeforeTotal(m, x);
      if Before(m, x) {
        assert IsFirst(m, keys);
      } else {
        forall j | j in keys && j != x
          ensures Before(x, j)
        {
          if j != m {
            BeforeTransitive(x, m, j);
          }
        }
        assert IsFirst(x, keys);
      }
    }
  }

  // ---------------------------------------------------------------- the parser object

  /** A clsPmacParser: the output of the last parse and the directories searched for include files. */
  class PmcParser {
    var output: seq<string>
    var includePaths: seq<string>

    /** __init__: "/" is searched first, then the given paths (none when None or empty). */
    constructor (includePaths: seq<string>)
      ensures this.includePaths == ["/"] + includePaths && output == []
    {
      this.includePaths := ["/"] + includePaths;
      output := [];
    }

    /**
     * parse: the output list is started afresh; when the file opens its directory is put in
     * front of the include paths and its lines processed one by one. The caller's macro
     * dictionary gets every binding made, up to the statement that raised.
     */
    method Parse(file: Option<string>, dir: string, defines: map<string, string>, opts: Options)
      returns (r: Result<Option<seq<string>>>, macros: map<string, string>)
      modifies this
      ensures Parsed(r, output, macros) == Preprocessed(file, defines, opts)
      ensures includePaths == if file.Some? then [dir] + old(includePaths) else old(includePaths)
    {
      output := [];
      macros := defines;
      if file.None? {
        r := Ok(None);
        return;
      }
      includePaths := [dir] + includePaths;
      var failed;
      macros, failed := ParseLines(FileLines(file.value), defines, opts);
      r := if failed then Raised(IndexError) else Ok(Some(output));
    }

    /** parse's loop over the lines of the file, up to the line that raised. */
    method ParseLines(lines: seq<string>, defines: map<string, string>, opts: Options)
      returns (macros: map<string, string>, failed: bool)
      requires output == []
      modifies this
      ensures Run(opts, defines, lines, 0) == Step(output, macros, failed)
      ensures includePaths == old(includePaths)
    {
      macros := defines;
      failed := false;
      var lineNumber := 0;
      while lineNumber < |lines|
        invariant 0 <= lineNumber <= |lines|
        invariant Run(opts, defines, lines, 0) == After(output, Run(opts, macros, lines, lineNumber))
        invariant includePaths == old(includePaths)
      {
        var inLine := lines[lineNumber];
        ghost var before := output;
        ghost var rest := Run(opts, macros, lines, lineNumber);
        lineNumber := lineNumber + 1;
        macros, failed := ParseLine(inLine, lineNumber, macros, opts);
        if failed {
          return;
        }
        ConcatAssoc(before, output[|before|..], Run(opts, macros, lines, lineNumber).output);
      }
    }

    /**
     * The body of parse's loop for line n: its debug line, then its own entries; a define
     * statement without a value raises IndexError (the failed flag), with the earlier
     * bindings kept.
     */
    method ParseLine(line: string, n: int, defines: map<string, string>, opts: Options)
      returns (macros: map<string, string>, failed: bool)
      modifies this
      ensures var e := Expand(opts, defines, line, n);
              output == old(output) + e.output && macros == e.macros && failed == e.failed
      ensures includePaths == old(includePaths)
    {
      macros := defines;
      failed := false;
      ghost var debug := if opts.debug then [DebugLine(opts.path, n)] else [];
      var inLine := line;
      if opts.debug {
        output := output + [DebugLine(opts.path, n)];
      }
      assert output == old(output) + debug;
      if !opts.comments {
        inLine := Split(inLine, ';')[0];
      }
      if AllSpace(inLine) {
        ConcatAssoc(old(output), debug, [""]);
        output := output + [""];
        assert Expand(opts, defines, line, n) == Step(debug + [""], defines, false);
        return;
      }
      if IsDirective(inLine, "define", "DEFINE") {
        ConcatAssoc(old(output), debug, [""]);
        output := output + [""];
        macros, failed := DefineAll(Arguments(inLine, "define", "DEFINE"), defines);
        assert Expand(opts, defines, line, n) == Step(debug + [""], macros, failed);
        return;
      }
      if IsDirective(inLine, "include", "INCLUDE") {
        var stmts := Arguments(inLine, "include", "INCLUDE");
        ConcatAssoc(old(output), debug, Included(opts.includes, stmts, |stmts|));
        IncludeAll(stmts, opts.includes);
        assert Expand(opts, defines, line, n) == Step(debug + Included(opts.includes, stmts, |stmts|), defines, false);
        return;
      }
      var expanded := SubstituteMacros(macros, inLine);
      ConcatAssoc(old(output), debug, [Trim(expanded, opts.comments)]);
      output := output + [Trim(expanded, opts.comments)];
      assert Expand(opts, defines, line, n) == Step(debug + [Trim(expanded, opts.comments)], defines, false);
    }

    /** The loop over the define statements of one line. */
    method DefineAll(statements: seq<string>, defines: map<string, string>)
      returns (macros: map<string, string>, failed: bool)
      ensures (macros, failed) == Define(defines, statements, 0)
    {
      macros := defines;
      failed := false;
      for k := 0 to |statements|
        invariant Define(macros, statements, k) == Define(defines, statements, 0)
      {
        var parts := SplitAtBlanks(Strip(statements[k], Whitespace));
        if parts.None? {
          failed := true;
          return;
        }
        var value := SubstituteMacros(macros, parts.value.1);
        macros := macros[parts.value.0 := value];
      }
    }

    /** The loop over the include statements of one line. */
    method IncludeAll(statements: seq<string>, includes: map<string, seq<string>>)
      modifies this
      ensures output == old(output) + Included(includes, statements, |statements|)
      ensures includePaths == old(includePaths)
    {
      for k := 0 to |statements|
        invariant output == old(output) + Included(includes, statements, k)
        invariant includePaths == old(includePaths)
      {
        ghost var added := IncludeEntries(includes, statements[k]);
        ConcatAssoc(old(output), Included(includes, statements, k), added);
        var includeFile := Strip(statements[k], {' ', '"', '\r'});
        if includeFile == "" || includeFile !in includes || includes[includeFile] == [] {
          output := output + [""];
        } else {
          output := output + includes[includeFile];
        }
        assert output == old(output) + Included(includes, statements, k) + added;
      }
    }

    /** substitute_macros: the replacements made one after the other, longest name first. */
    method SubstituteMacros(macroDict: map<string, string>, text: string) returns (outText: string)
      ensures outText == Substitute(macroDict, text)
    {
      outText := text;
      var sortedMacros := Ordered(macroDict.Keys);
      for i := 0 to |sortedMacros|
        invariant outText == ReplaceAll(text, sortedMacros, i, macroDict)
      {
        outText := Replace(outText, sortedMacros[i], macroDict[sortedMacros[i]]);
      }
    }
  }
}
