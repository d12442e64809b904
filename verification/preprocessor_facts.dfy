/**
 * What the PMC preprocessor promises, stated about the model in module Preprocessor: the
 * lines of a file put back together give the file, comments are ignored, a define line
 * binds its macro, a macro that does not occur changes nothing, the line ends are trimmed,
 * and each line gives one entry (after its debug line) unless it includes a file.
 */
module PreprocessorFacts {
  import opened Py
  import opened Preprocessor

  // ---------------------------------------------------------------- the lines of a file

  /** The lines the file yields, put back together, are the file's text. */
  lemma {:induction false} FileLinesJoined(text: string)
    ensures Joined(FileLines(text)) == text
    decreases |text|
  {
    if |text| > 0 {
      match FirstIndex(text, '\n')
      case None =>
        assert FileLines(text) == [text];
        assert Joined([text]) == text + Joined([]);
      case Some(i) =>
        var rest := text[i + 1..];
        FileLinesJoined(rest);
        var lines := FileLines(text);
        assert lines == [text[..i + 1]] + FileLines(rest);
        assert lines[1..] == FileLines(rest);
        assert text[..i + 1] + rest == text;
    }
  }

  // ---------------------------------------------------------------- comments

  /**
   * With comments cut, everything from the first ';' on plays no part: the line is processed
   * as the text before it.
   */
  lemma CommentIgnored(opts: Options, macros: map<string, string>, a: string, b: string, n: int)
    requires !opts.comments && ';' !in a
    ensures Expand(opts, macros, a + ";" + b, n) == Expand(opts, macros, a, n)
  {
    SplitAppend(a, b, ';');
    assert a + ";" + b == a + [';'] + b;
    SplitPlain(a, ';');
  }

  // ---------------------------------------------------------------- directives

  /** A line with no ';' is classified as it is, whether or not comments are cut. */
  lemma UncommentedPlain(line: string, comments: bool)
    requires ';' !in line
    ensures Uncommented(line, comments) == line
  {
    SplitPlain(line, ';');
  }

  /**
   * "#" + word + b + eol, where word is the directive in one of its two spellings and b
   * starts with a character that cannot continue a word: a directive line whose arguments
   * are b, and an empty one more when b itself ends with the directive.
   */
  lemma DirectiveArguments(lower: string, upper: string, word: string, b: string, eol: string)
    requires |lower| == |upper| && (word == lower || word == upper)
    requires |b| > 0 && !IsWordChar(b[0]) && '\n' !in b
    requires eol == "" || eol == "\n"
    ensures var line := "#" + word + b + eol;
      IsDirective(line, lower, upper) && !AllSpace(line) &&
      Arguments(line, lower, upper) == [b] + (if EndsWith(b, lower) || EndsWith(b, upper) then [""] else [])
  {
    var line := "#" + word + b + eol;
    var n := |lower| + 1;
    assert line[1..n] == word;
    assert line[n] == b[0];
    assert line[0] == '#' && '#' !in Whitespace;
    assert line[n..] == b + eol;
    if eol == "" {
      assert b + eol == b;
    } else {
      FirstIndexAt(b + eol, |b|, '\n');
      assert (b + eol)[..|b|] == b;
    }
  }

  /** s.split(...) at the first run of blanks, where the text before it has none. */
  lemma {:induction false} SplitAtBlanksOf(name: string, rest: string)
    requires forall i :: 0 <= i < |name| ==> name[i] !in Blanks
    requires |rest| > 0 && rest[0] in Blanks
    ensures SplitAtBlanks(name + rest) == Some((name, LStrip(rest, Blanks)))
    decreases |name|
  {
    var t := name + rest;
    if |name| == 0 {
      assert t == rest;
    } else {
      assert t[1..] == name[1..] + rest;
      SplitAtBlanksOf(name[1..], rest);
      assert t[0] == name[0] && t[0] !in Blanks;
      assert [name[0]] + name[1..] == name;
    }
  }

  /** A name of no whitespace characters: one that the define statements can bind. */
  predicate IsName(name: string)
  {
    |name| > 0 && forall i :: 0 <= i < |name| ==> name[i] !in Whitespace && name[i] != ';'
  }

  /** A name holds neither ';' nor a line end, and nor does it with a blank in front. */
  lemma NameChars(name: string)
    requires IsName(name)
    ensures ';' !in name && '\n' !in name && ';' !in " " + name && '\n' !in " " + name
  {
    assert forall c :: c in " " + name ==> c == ' ' || c in name;
  }

  /** A define value: no line end or ';' in it, and no whitespace at either end. */
  predicate IsValue(value: string)
  {
    |value| > 0 && value[0] !in Whitespace && value[|value| - 1] !in Whitespace &&
    '\n' !in value && ';' !in value
  }

  /** The statement stripped: the name, a blank, the value. */
  lemma StripStatement(name: string, value: string)
    requires |name| > 0 && name[0] !in Whitespace
    requires |value| > 0 && value[|value| - 1] !in Whitespace
    ensures Strip(" " + name + " " + value, Whitespace) == name + " " + value
  {
    var t := name + " " + value;
    StripExact(" ", t, "", Whitespace);
    assert " " + t + "" == " " + name + " " + value;
    assert t[0] == name[0] && t[|t| - 1] == value[|value| - 1];
  }

  /** The stripped statement split at its first blank. */
  lemma SplitStatement(name: string, value: string)
    requires forall i :: 0 <= i < |name| ==> name[i] !in Blanks
    requires |value| > 0 && value[0] !in Blanks
    ensures SplitAtBlanks(name + " " + value) == Some((name, value))
  {
    SplitAtBlanksOf(name, " " + value);
    assert name + (" " + value) == name + " " + value;
    LStripPrefix(" ", value, Blanks);
  }

  /** One define statement " NAME VALUE" binds NAME to VALUE with the macros known so far expanded. */
  lemma DefineStatement(macros: map<string, string>, name: string, value: string)
    requires IsName(name) && IsValue(value)
    ensures Define(macros, [" " + name + " " + value], 0) == (macros[name := Substitute(macros, value)], false)
  {
    StripStatement(name, value);
    SplitStatement(name, value);
  }

  /** A define statement " NAME" without a value binds nothing and raises IndexError. */
  lemma DefineStatementWithoutValue(macros: map<string, string>, name: string)
    requires IsName(name)
    ensures Define(macros, [" " + name], 0) == (macros, true)
  {
    assert Strip(" " + name, Whitespace) == name by {
      StripExact(" ", name, "", Whitespace);
      assert " " + name + "" == " " + name;
    }
  }

  /** The characters of a suffix, counted from the start of the suffix. */
  lemma SuffixAt(s: string, w: string, j: nat)
    requires EndsWith(s, w) && j < |w|
    ensures w[j] == s[|s| - |w| + j]
  {
  }

  /** A text that ends in a non-blank run v, after a blank, ends with a blank-free word only if v does. */
  lemma EndsWithAfterBlank(p: string, v: string, w: string)
    requires ' ' !in w
    requires EndsWith(p + " " + v, w)
    ensures EndsWith(v, w)
  {
    var s := p + " " + v;
    if |w| > |v| {
      SuffixAt(s, w, |w| - |v| - 1);
      assert false;
    }
    assert s[|s| - |w|..] == v[|v| - |w|..];
  }

  /** A value that does not end with the directive's name leaves no empty statement after it. */
  lemma ValueNotDirective(p: string, value: string, lower: string, upper: string)
    requires ' ' !in lower && ' ' !in upper
    requires !EndsWith(value, lower) && !EndsWith(value, upper)
    ensures !EndsWith(p + " " + value, lower) && !EndsWith(p + " " + value, upper)
  {
    if EndsWith(p + " " + value, lower) {
      EndsWithAfterBlank(p, value, lower);
    }
    if EndsWith(p + " " + value, upper) {
      EndsWithAfterBlank(p, value, upper);
    }
  }

  /**
   * "#define NAME VALUE" (in either spelling, ending in "\n" or not) adds one empty entry
   * after its debug line and binds NAME to VALUE with the macros known so far expanded in
   * it; a value that itself ends with the directive's name raises IndexError instead.
   */
  lemma DefineBinds(opts: Options, macros: map<string, string>, word: string, name: string, value: string, eol: string, n: int)
    requires word == "define" || word == "DEFINE"
    requires IsName(name) && IsValue(value)
    requires !EndsWith(value, "define") && !EndsWith(value, "DEFINE")
    requires eol == "" || eol == "\n"
    ensures var debug := if opts.debug then [DebugLine(opts.path, n)] else [];
      Expand(opts, macros, "#" + word + " " + name + " " + value + eol, n) ==
      Step(debug + [""], macros[name := Substitute(macros, value)], false)
  {
    NameChars(name);
    DirectiveLine("define", "DEFINE", word, " " + name, value, eol, opts.comments);
    ConcatAssoc("#" + word, " ", name);
    DefineStatement(macros, name, value);
  }

  /** "#define NAME" without a value adds its empty entry and raises IndexError, binding nothing. */
  lemma DefineWithoutValue(opts: Options, macros: map<string, string>, word: string, name: string, eol: string, n: int)
    requires word == "define" || word == "DEFINE"
    requires IsName(name) && !EndsWith(name, "define") && !EndsWith(name, "DEFINE")
    requires eol == "" || eol == "\n"
    ensures var debug := if opts.debug then [DebugLine(opts.path, n)] else [];
      Expand(opts, macros, "#" + word + " " + name + eol, n) == Step(debug + [""], macros, true)
  {
    NameChars(name);
    DirectiveLine("define", "DEFINE", word, "", name, eol, opts.comments);
    assert "#" + word + "" + " " + name + eol == "#" + word + " " + name + eol;
    assert "" + " " + name == " " + name;
    DefineStatementWithoutValue(macros, name);
  }

  /**
   * How a directive line "#" + word + p + " " + v is classified, when v does not end with the
   * directive's name: a directive whose one argument is p + " " + v.
   */
  lemma DirectiveLine(lower: string, upper: string, word: string, p: string, v: string, eol: string, comments: bool)
    requires |lower| == |upper| && (word == lower || word == upper)
    requires ' ' !in lower && ' ' !in upper && ';' !in word
    requires ';' !in p && ';' !in v && '\n' !in p && '\n' !in v && (p == "" || p[0] == ' ')
    requires !EndsWith(v, lower) && !EndsWith(v, upper)
    requires eol == "" || eol == "\n"
    ensures var line := "#" + word + p + " " + v + eol;
      Uncommented(line, comments) == line && IsDirective(line, lower, upper) &&
      !AllSpace(line) && Arguments(line, lower, upper) == [p + " " + v]
  {
    var b := p + " " + v;
    var line := "#" + word + b + eol;
    assert "#" + word + p + " " + v + eol == line;
    assert Uncommented(line, comments) == line by {
      assert forall i :: 0 <= i < |line| ==> line[i] != ';' by {
        assert line == "#" + word + p + " " + v + eol;
      }
      UncommentedPlain(line, comments);
    }
    assert !EndsWith(b, lower) && !EndsWith(b, upper) by {
      ValueNotDirective(p, v, lower, upper);
    }
    assert |b| > 0 && !IsWordChar(b[0]) && '\n' !in b by {
      assert b[0] == ' ';
      assert forall i :: 0 <= i < |b| ==> b[i] != '\n' by {
        assert b == p + " " + v;
      }
    }
    DirectiveArguments(lower, upper, word, b, eol);
  }

  /**
   * A line that is blank once its comment is cut gives one empty entry after its debug line.
   * The blank test comes first, so such a line never reaches the directive tests.
   */
  lemma BlankLine(opts: Options, macros: map<string, string>, line: string, n: int)
    requires AllSpace(Uncommented(line, opts.comments))
    ensures var debug := if opts.debug then [DebugLine(opts.path, n)] else [];
            Expand(opts, macros, line, n) == Step(debug + [""], macros, false)
  {
  }

  /** The quoted file name of an include statement: a blank, then the name in double quotes. */
  function Quoted(name: string): (stmt: string)
    ensures |stmt| == |name| + 3 && stmt[0] == ' '
  {
    " \"" + name + "\""
  }

  /** The quoted name holds no ';' or line end when the name does, and does not end with the directive. */
  lemma QuotedPlain(name: string)
    requires ';' !in name && '\n' !in name
    ensures var b := Quoted(name);
      ';' !in b && '\n' !in b && !IsWordChar(b[0]) && !EndsWith(b, "include") && !EndsWith(b, "INCLUDE")
  {
    var b := Quoted(name);
    assert forall i :: 0 <= i < |b| ==> b[i] == ' ' || b[i] == '"' || b[i] in name;
    assert b[|b| - 1] == '"';
  }

  /** "#include \"NAME\"" is an include directive, and not a define one, whose one statement is the quoted name. */
  lemma IncludeDirective(word: string, name: string, eol: string, comments: bool)
    requires word == "include" || word == "INCLUDE"
    requires ';' !in name && '\n' !in name
    requires eol == "" || eol == "\n"
    ensures var line := "#" + word + Quoted(name) + eol;
      Uncommented(line, comments) == line && !AllSpace(line) && !IsDirective(line, "define", "DEFINE") &&
      IsDirective(line, "include", "INCLUDE") && Arguments(line, "include", "INCLUDE") == [Quoted(name)]
  {
    var b := Quoted(name);
    var line := "#" + word + b + eol;
    QuotedPlain(name);
    DirectiveArguments("include", "INCLUDE", word, b, eol);
    IncludeUncommented(word, name, eol, comments);
    assert line[1] == word[0] && (word[0] == 'i' || word[0] == 'I');
  }

  /** An include line holds no ';', so cutting comments leaves it whole. */
  lemma IncludeUncommented(word: string, name: string, eol: string, comments: bool)
    requires word == "include" || word == "INCLUDE"
    requires ';' !in name && '\n' !in name
    requires eol == "" || eol == "\n"
    ensures var line := "#" + word + Quoted(name) + eol;
      Uncommented(line, comments) == line
  {
    var cs := {';'};
    var b := Quoted(name);
    assert NoneIn("#" + word, cs) by {
      if word == "include" { assert "#" + word == "#include"; } else { assert "#" + word == "#INCLUDE"; }
    }
    assert NoneIn(b, cs) by {
      QuotedPlain(name);
    }
    assert NoneIn(eol, cs);
    NoneInConcat("#" + word, b, cs);
    NoneInConcat("#" + word + b, eol, cs);
    UncommentedPlain("#" + word + b + eol, comments);
  }

  /** An include directive line with no comment to cut gives the entries of its statements. */
  lemma ExpandInclude(opts: Options, macros: map<string, string>, line: string, n: int)
    requires Uncommented(line, opts.comments) == line && !AllSpace(line)
    requires !IsDirective(line, "define", "DEFINE") && IsDirective(line, "include", "INCLUDE")
    ensures var debug := if opts.debug then [DebugLine(opts.path, n)] else [];
            var stmts := Arguments(line, "include", "INCLUDE");
            Expand(opts, macros, line, n) == Step(debug + Included(opts.includes, stmts, |stmts|), macros, false)
  {
  }

  /** The one statement "\"NAME\"" names the file NAME. */
  lemma QuotedEntries(includes: map<string, seq<string>>, name: string)
    requires |name| > 0 && name[0] !in {' ', '"', '\r'} && name[|name| - 1] !in {' ', '"', '\r'}
    ensures Included(includes, [Quoted(name)], 1) ==
              if name !in includes || includes[name] == [] then [""] else includes[name]
  {
    StripExact(" \"", name, "\"", {' ', '"', '\r'});
    assert Included(includes, [Quoted(name)], 1) == [] + IncludeEntries(includes, Quoted(name));
  }

  /**
   * "#include \"NAME\"" gives, after its debug line, the lines of the file NAME names, or one
   * empty entry when no include path holds it or parsing it gave nothing.
   */
  lemma IncludeLine(opts: Options, macros: map<string, string>, word: string, name: string, eol: string, n: int)
    requires word == "include" || word == "INCLUDE"
    requires |name| > 0 && name[0] !in {' ', '"', '\r'} && name[|name| - 1] !in {' ', '"', '\r'}
    requires ';' !in name && '\n' !in name
    requires eol == "" || eol == "\n"
    ensures var debug := if opts.debug then [DebugLine(opts.path, n)] else [];
            var line := "#" + word + Quoted(name) + eol;
            (name in opts.includes && opts.includes[name] != [] ==>
               Expand(opts, macros, line, n) == Step(debug + opts.includes[name], macros, false)) &&
            (name !in opts.includes || opts.includes[name] == [] ==>
               Expand(opts, macros, line, n) == Step(debug + [""], macros, false))
  {
    var line := "#" + word + Quoted(name) + eol;
    IncludeDirective(word, name, eol, opts.comments);
    ExpandInclude(opts, macros, line, n);
    QuotedEntries(opts.includes, name);
  }

  // ---------------------------------------------------------------- macro substitution

  /** Replacing names none of which occur in the text leaves it as it is. */
  lemma {:induction false} ReplaceAllAbsent(text: string, ks: seq<string>, n: nat, macros: map<string, string>)
    requires n <= |ks| && forall i :: 0 <= i < |ks| ==> ks[i] in macros
    requires forall i :: 0 <= i < |ks| ==> ks[i] != "" && !Contains(text, ks[i])
    ensures ReplaceAll(text, ks, n, macros) == text
  {
    if n > 0 {
      ReplaceAllAbsent(text, ks, n - 1, macros);
      ReplaceAbsent(text, ks[n - 1], macros[ks[n - 1]]);
    }
  }

  /** A text in which no macro name occurs comes out of substitute_macros unchanged. */
  lemma SubstituteAbsent(macros: map<string, string>, text: string)
    requires forall k :: k in macros ==> k != "" && !Contains(text, k)
    ensures Substitute(macros, text) == text
  {
    var ks := Ordered(macros.Keys);
    ReplaceAllAbsent(text, ks, |ks|, macros);
  }

  /** s.replace(k, v) on a text that starts with k: v, then the rest of the text replaced. */
  lemma ReplaceFront(k: string, v: string, b: string)
    requires k != ""
    ensures Replace(k + b, k, v) == v + Replace(b, k, v)
  {
    assert (k + b)[..|k|] == k;
    assert (k + b)[|k|..] == b;
  }

  /** With one macro, substitute_macros is text.replace(name, value). */
  lemma SubstituteOne(k: string, v: string, text: string)
    ensures Substitute(map[k := v], text) == Replace(text, k, v)
  {
    var m := map[k := v];
    assert m.Keys == {k};
    assert IsFirst(k, {k});
    OrderedFirst({k}, k);
    assert {k} - {k} == {};
    assert Ordered({}) == [];
    assert Ordered(m.Keys) == [k];
    assert ReplaceAll(text, [k], 0, m) == text;
    assert ReplaceAll(text, [k], 1, m) == Replace(text, k, v);
  }

  // ---------------------------------------------------------------- trimming

  const LineEnds: set<char> := {'\r', '\n', '\t'}

  /** Stripping characters that are at neither end leaves the text as it is. */
  lemma StripNone(s: string, cs: set<char>)
    requires |s| > 0 && s[0] !in cs && s[|s| - 1] !in cs
    ensures Strip(s, cs) == s
  {
    StripExact("", s, "", cs);
    assert "" + s + "" == s;
  }

  /**
   * A line whose text neither starts nor ends with '\r', '\n' or '\t' comes out of the trim
   * as that text, whether it ended in "\n", "\r\n" or nothing (when comments are kept only
   * its end matters).
   */
  lemma TrimPlain(d: string, eol: string, comments: bool)
    requires |d| > 0 && d[|d| - 1] !in LineEnds && (!comments ==> d[0] !in LineEnds)
    requires eol == "" || eol == "\n" || eol == "\r\n"
    ensures Trim(d + eol, comments) == d
  {
    if comments {
      TrimKept(d, eol);
    } else {
      TrimCut(d, eol);
    }
  }

  /** The trim with comments kept: right-strips only. */
  lemma TrimKept(d: string, eol: string)
    requires |d| > 0 && d[|d| - 1] !in LineEnds
    requires eol == "" || eol == "\n" || eol == "\r\n"
    ensures Trim(d + eol, true) == d
  {
    var s := d + eol;
    if eol == "" {
      assert s == d;
    } else if eol == "\n" {
      assert RStrip(s, {'\n'}) == d by {
        RStripSuffix(d, "\n", {'\n'});
      }
      assert TrimSingles(s, true) == d by {
        assert s[|s| - 1] == '\n';
      }
    } else {
      var t := d + "\r";
      assert RStrip(s, {'\n'}) == t by {
        assert s == t + "\n";
        RStripSuffix(t, "\n", {'\n'});
      }
      assert TrimSingles(s, true) == t by {
        assert s[|s| - 1] == '\n' && t[|t| - 1] == '\r';
      }
      assert RStrip(t, {'\r', '\n'}) == d by {
        RStripSuffix(d, "\r", {'\r', '\n'});
      }
    }
  }

  /** The trim with comments cut: strips from both ends. */
  lemma TrimCut(d: string, eol: string)
    requires |d| > 0 && d[|d| - 1] !in LineEnds && d[0] !in LineEnds
    requires eol == "" || eol == "\n" || eol == "\r\n"
    ensures Trim(d + eol, false) == d
  {
    var s := d + eol;
    assert Strip(d, {'\t'}) == d by {
      StripNone(d, {'\t'});
    }
    assert Strip(d, {'\r', '\n'}) == d by {
      StripNone(d, {'\r', '\n'});
    }
    if eol == "" {
      assert s == d;
      assert Strip(d, {'\r'}) == d by {
        StripNone(d, {'\r'});
      }
      assert Strip(d, {'\n'}) == d by {
        StripNone(d, {'\n'});
      }
    } else if eol == "\n" {
      assert Strip(s, {'\r'}) == s by {
        assert s[|s| - 1] == '\n' && s[0] == d[0];
        StripNone(s, {'\r'});
      }
      assert Strip(s, {'\n'}) == d by {
        StripExact("", d, "\n", {'\n'});
        assert "" + d + "\n" == s;
      }
    } else {
      var t := d + "\r";
      assert Strip(s, {'\r'}) == s by {
        assert s[|s| - 1] == '\n' && s[0] == d[0];
        StripNone(s, {'\r'});
      }
      assert Strip(s, {'\n'}) == t by {
        StripExact("", t, "\n", {'\n'});
        assert "" + t + "\n" == s;
      }
      assert Strip(t, {'\t'}) == t by {
        assert t[|t| - 1] == '\r' && t[0] == d[0];
        StripNone(t, {'\t'});
      }
      assert Strip(t, {'\r', '\n'}) == d by {
        StripExact("", d, "\r", {'\r', '\n'});
        assert "" + d + "\r" == t;
      }
    }
  }

  // ---------------------------------------------------------------- plain lines and small files

  /**
   * A line of text that is neither blank nor a directive, in which no macro name occurs,
   * comes out after its debug line as the text without its line end.
   */
  lemma PlainLine(opts: Options, macros: map<string, string>, d: string, eol: string, n: int)
    requires |d| > 0 && d[0] !in Whitespace && d[0] != '#' && d[|d| - 1] !in LineEnds && ';' !in d
    requires eol == "" || eol == "\n"
    requires forall k :: k in macros ==> k != "" && !Contains(d + eol, k)
    ensures var debug := if opts.debug then [DebugLine(opts.path, n)] else [];
      Expand(opts, macros, d + eol, n) == Step(debug + [d], macros, false)
  {
    var line := d + eol;
    assert line[0] == d[0];
    assert ';' !in line by {
      assert eol == "" || eol == ['\n'];
    }
    UncommentedPlain(line, opts.comments);
    SubstituteAbsent(macros, line);
    TrimPlain(d, eol, opts.comments);
  }

  /** A line that is neither blank nor a directive and holds no ';': its expanded text, trimmed. */
  lemma TextLine(opts: Options, macros: map<string, string>, line: string, n: int)
    requires |line| > 0 && line[0] !in Whitespace && line[0] != '#' && ';' !in line
    ensures var debug := if opts.debug then [DebugLine(opts.path, n)] else [];
      Expand(opts, macros, line, n) == Step(debug + [Trim(Substitute(macros, line), opts.comments)], macros, false)
  {
    UncommentedPlain(line, opts.comments);
  }

  /** A line that starts with the one macro's name and holds it nowhere else: the value in its place. */
  lemma UseLine(name: string, value: string, rest: string, eol: string, comments: bool)
    requires name != "" && |value| > 0 && value[0] !in LineEnds
    requires (|rest| > 0 ==> rest[|rest| - 1] !in LineEnds) && (rest == "" ==> value[|value| - 1] !in LineEnds)
    requires eol == "" || eol == "\n"
    requires !Contains(rest + eol, name)
    ensures Trim(Substitute(map[name := value], name + rest + eol), comments) == value + rest
  {
    var d := value + rest;
    assert Substitute(map[name := value], name + rest + eol) == d + eol by {
      SubstituteOne(name, value, name + rest + eol);
      assert name + rest + eol == name + (rest + eol);
      ReplaceFront(name, value, rest + eol);
      ReplaceAbsent(rest + eol, name, value);
      assert value + (rest + eol) == d + eol;
    }
    assert d[0] == value[0];
    assert d[|d| - 1] !in LineEnds by {
      if rest == "" { assert d == value; } else { assert d[|d| - 1] == rest[|rest| - 1]; }
    }
    TrimPlain(d, eol, comments);
  }

  /** The line after "#define NAME VALUE", starting with NAME: VALUE in its place. */
  lemma UseExpand(opts: Options, name: string, value: string, rest: string, eol: string, n: int)
    requires IsName(name) && name[0] != '#' && IsValue(value)
    requires ';' !in rest && (|rest| > 0 ==> rest[|rest| - 1] !in LineEnds)
    requires eol == "" || eol == "\n"
    requires !Contains(rest + eol, name)
    ensures var debug := if opts.debug then [DebugLine(opts.path, n)] else [];
      Expand(opts, map[name := value], name + rest + eol, n) == Step(debug + [value + rest], map[name := value], false)
  {
    var b := name + rest + eol;
    NameChars(name);
    assert ';' !in b by {
      assert forall i :: 0 <= i < |b| ==> b[i] in name || b[i] in rest || b[i] in eol;
      assert eol == "" || eol == ['\n'];
    }
    assert b[0] == name[0];
    TextLine(opts, map[name := value], b, n);
    UseLine(name, value, rest, eol, opts.comments);
  }

  /**
   * A macro defined on one line is expanded on the next: "#define NAME VALUE" and then a line
   * starting with NAME give an empty entry, then that line with VALUE in place of NAME.
   */
  lemma DefineThenUse(opts: Options, word: string, name: string, value: string, rest: string, eol: string)
    requires word == "define" || word == "DEFINE"
    requires IsName(name) && name[0] != '#' && IsValue(value)
    requires !EndsWith(value, "define") && !EndsWith(value, "DEFINE")
    requires ';' !in rest && (|rest| > 0 ==> rest[|rest| - 1] !in LineEnds)
    requires eol == "" || eol == "\n"
    requires !Contains(rest + eol, name)
    ensures var d1 := if opts.debug then [DebugLine(opts.path, 1)] else [];
            var d2 := if opts.debug then [DebugLine(opts.path, 2)] else [];
            Run(opts, map[], ["#" + word + " " + name + " " + value + "\n", name + rest + eol], 0) ==
              Step(d1 + [""] + d2 + [value + rest], map[name := value], false)
  {
    var a := "#" + word + " " + name + " " + value + "\n";
    var b := name + rest + eol;
    var d1 := if opts.debug then [DebugLine(opts.path, 1)] else [];
    var d2 := if opts.debug then [DebugLine(opts.path, 2)] else [];
    assert Expand(opts, map[], a, 1) == Step(d1 + [""], map[name := value], false) by {
      DefineBinds(opts, map[], word, name, value, "\n", 1);
      SubstituteAbsent(map[], value);
    }
    UseExpand(opts, name, value, rest, eol, 2);
    RunTwo(opts, map[], a, b);
    assert d1 + [""] + (d2 + [value + rest]) == d1 + [""] + d2 + [value + rest];
  }

  /** A text shorter than the pattern does not contain it. */
  lemma {:induction false} ShortContainsNot(s: string, pat: string)
    requires |s| < |pat|
    ensures !Contains(s, pat)
    decreases |s|
  {
    if |s| > 0 {
      ShortContainsNot(s[1..], pat);
    }
  }

  /** A file of two lines, the first ended by '\n', is read as those two lines. */
  lemma TwoLines(a: string, b: string, text: string)
    requires text == a + "\n" + b
    requires |b| > 0 && NoneIn(a, {'\n'}) && NoneIn(b, {'\n'})
    ensures FileLines(text) == [a + "\n", b]
  {
    FileLinesCons(a, b);
    FileLinesOne(b);
  }

  /** A define line without its line end holds no line end. */
  lemma DefineLinePlain(word: string, name: string, value: string)
    requires word == "define" || word == "DEFINE"
    requires IsName(name) && IsValue(value)
    ensures NoneIn("#" + word + " " + name + " " + value, {'\n'})
  {
    var head := "#" + word + " ";
    var ends := {'\n'};
    assert NoneIn(head, ends) by {
      if word == "define" { assert head == "#define "; } else { assert head == "#DEFINE "; }
    }
    assert NoneIn(name, ends) && NoneIn(value, ends) && NoneIn(" ", ends);
    NoneInConcat(head, name, ends);
    NoneInConcat(head + name, " ", ends);
    NoneInConcat(head + name + " ", value, ends);
  }

  /** The define line and the line that uses it are read as two lines. */
  lemma DefineUseLines(word: string, name: string, value: string, rest: string)
    requires word == "define" || word == "DEFINE"
    requires IsName(name) && IsValue(value) && '\n' !in rest
    ensures var a := "#" + word + " " + name + " " + value;
            FileLines("#" + word + " " + name + " " + value + "\n" + name + rest) == [a + "\n", name + rest]
  {
    var head := "#" + word + " ";
    DefineLinePlain(word, name, value);
    assert NoneIn(name + rest, {'\n'}) by {
      assert NoneIn(name, {'\n'}) && NoneIn(rest, {'\n'});
      NoneInConcat(name, rest, {'\n'});
    }
    ConcatAssoc(head + name + " " + value + "\n", name, rest);
    TwoLines(head + name + " " + value, name + rest, "#" + word + " " + name + " " + value + "\n" + name + rest);
  }

  /**
   * parse on a file of two lines, "#define NAME VALUE" and a line starting with NAME: the
   * file is read as those two lines, which give an empty entry, then the second line with
   * VALUE in place of NAME; the macro stays bound.
   */
  lemma ParseDefineThenUse(opts: Options, word: string, name: string, value: string, rest: string)
    requires word == "define" || word == "DEFINE"
    requires IsName(name) && name[0] != '#' && IsValue(value)
    requires !EndsWith(value, "define") && !EndsWith(value, "DEFINE")
    requires ';' !in rest && '\n' !in rest && (|rest| > 0 ==> rest[|rest| - 1] !in LineEnds)
    requires !Contains(rest, name)
    ensures var a := "#" + word + " " + name + " " + value + "\n";
            var d1 := if opts.debug then [DebugLine(opts.path, 1)] else [];
            var d2 := if opts.debug then [DebugLine(opts.path, 2)] else [];
            FileLines(a + name + rest) == [a, name + rest] &&
            Run(opts, map[], [a, name + rest], 0) == Step(d1 + [""] + d2 + [value + rest], map[name := value], false)
  {
    DefineUseLines(word, name, value, rest);
    assert rest + "" == rest && name + rest + "" == name + rest;
    DefineThenUse(opts, word, name, value, rest, "");
  }

  /** The macro of the define example meets what ParseDefineThenUse asks of a macro and its use. */
  lemma ExampleMacro(name: string, value: string, rest: string)
    requires name == "test" && value == "P10" && rest == " = 1"
    ensures IsName(name) && name[0] != '#' && IsValue(value)
    ensures !EndsWith(value, "define") && !EndsWith(value, "DEFINE")
    ensures ';' !in rest && '\n' !in rest && (|rest| > 0 ==> rest[|rest| - 1] !in LineEnds)
    ensures !Contains(rest, name)
  {
    assert !Contains(rest, name) by {
      assert rest[0] != name[0];
      ShortContainsNot(rest[1..], name);
    }
    assert value[|value| - 1] == '0';
  }

  /**
   * The define example of the module's tests, "#define test P10\ntest = 1": the lines
   * "#define test P10\n" and "test = 1" give "" and "P10 = 1".
   */
  lemma DefineThenUseExample(opts: Options, word: string, name: string, value: string, rest: string)
    requires !opts.debug && word == "define" && name == "test" && value == "P10" && rest == " = 1"
    ensures var a := "#" + word + " " + name + " " + value + "\n";
            FileLines(a + name + rest) == [a, name + rest] &&
            Run(opts, map[], [a, name + rest], 0) == Step(["", value + rest], map[name := value], false)
  {
    ExampleMacro(name, value, rest);
    ParseDefineThenUse(opts, word, name, value, rest);
    assert [] + [""] + [] + [value + rest] == ["", value + rest];
  }

  /** A text without a line end is one line. */
  lemma FileLinesOne(t: string)
    requires |t| > 0 && '\n' !in t
    ensures FileLines(t) == [t]
  {
  }

  /** A text of a first line ended by "\n" and the rest. */
  lemma FileLinesCons(a: string, rest: string)
    requires '\n' !in a
    ensures FileLines(a + "\n" + rest) == [a + "\n"] + FileLines(rest)
  {
    var t := a + "\n" + rest;
    FirstIndexAt(t, |a|, '\n');
    assert t[..|a|] == a;
    assert t[..|a| + 1] == a + "\n";
    assert t[|a| + 1..] == rest;
  }

  /** A file of one line is that line's processing. */
  lemma RunOne(opts: Options, macros: map<string, string>, line: string)
    ensures Run(opts, macros, [line], 0) == Expand(opts, macros, line, 1)
  {
    var e := Expand(opts, macros, line, 1);
    if !e.failed {
      assert Run(opts, e.macros, [line], 1) == Step([], e.macros, false);
      assert e.output + [] == e.output;
    }
  }

  /** A file of two lines: the second is processed with the macros the first left, unless the first raised. */
  lemma RunTwo(opts: Options, macros: map<string, string>, a: string, b: string)
    ensures var e := Expand(opts, macros, a, 1);
      Run(opts, macros, [a, b], 0) ==
        if e.failed then e
        else var f := Expand(opts, e.macros, b, 2); Step(e.output + f.output, f.macros, f.failed)
  {
    var e := Expand(opts, macros, a, 1);
    if !e.failed {
      var f := Expand(opts, e.macros, b, 2);
      if !f.failed {
        assert Run(opts, f.macros, [a, b], 2) == Step([], f.macros, false);
        assert f.output + [] == f.output;
      }
    }
  }

  /** No line of the file is an include line, once its comment is cut when comments are cut. */
  predicate NoIncludes(opts: Options, lines: seq<string>)
  {
    forall i :: 0 <= i < |lines| ==> !IsDirective(Uncommented(lines[i], opts.comments), "include", "INCLUDE")
  }

  /** Without include lines, a file processed to the end gives one entry per line, or two with the debug lines planted. */
  lemma {:induction false} RunEntries(opts: Options, macros: map<string, string>, lines: seq<string>, k: nat)
    requires k <= |lines| && NoIncludes(opts, lines)
    ensures var s := Run(opts, macros, lines, k);
            !s.failed ==> |s.output| == (|lines| - k) * (1 + if opts.debug then 1 else 0)
    decreases |lines| - k
  {
    if k < |lines| {
      var e := Expand(opts, macros, lines[k], k + 1);
      if !e.failed {
        RunEntries(opts, e.macros, lines, k + 1);
      }
    }
  }
}
