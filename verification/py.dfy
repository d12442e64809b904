/**
 * Python 2 building blocks that the PMAC library relies on: the exceptions it raises or
 * lets escape, integer formatting ("%d", "%x", hex()) and parsing (int(s), int(s, 16)),
 * the str methods split, strip and replace, repr(), list indexing with negative indices,
 * and the integer bit operations |, ^ and & on single bits.
 */
module Py {

  datatype Option<T> = None | Some(value: T)

  /** The exceptions that the modelled code raises, or lets escape from the calls it makes. */
  datatype Exception =
    | IOError(message: string)
    | ValueError(message: string)
    | IndexError
    | StructError
    | UnboundLocalError(name: string)
    | AttributeError(name: string)

  /** The outcome of a Python call: a value, or an exception propagating to the caller. */
  datatype Result<T> = Ok(value: T) | Raised(exc: Exception) {
    predicate IsFailure() { Raised? }
    function PropagateFailure<U>(): Result<U> requires Raised? { Raised(exc) }
    function Extract(): T requires Ok? { value }
  }

  const ACK: char := '\U{6}'
  const BEL: char := '\U{7}'

  /** The characters Python 2's str.strip() and str.split() treat as blanks. */
  const Whitespace: set<char> := {' ', '\t', '\n', '\r', '\U{b}', '\U{c}'}

  predicate IsDigit(c: char) { '0' <= c <= '9' }
  predicate IsHexDigit(c: char) { IsDigit(c) || 'a' <= c <= 'f' || 'A' <= c <= 'F' }
  predicate IsUpperAlnum(c: char) { IsDigit(c) || 'A' <= c <= 'Z' }
  /** The class \w of a Python 2 regular expression on a byte string. */
  predicate IsWordChar(c: char) { IsDigit(c) || 'a' <= c <= 'z' || 'A' <= c <= 'Z' || c == '_' }

  predicate AllDigits(s: string) { forall i :: 0 <= i < |s| ==> IsDigit(s[i]) }
  predicate AllHexDigits(s: string) { forall i :: 0 <= i < |s| ==> IsHexDigit(s[i]) }
  predicate AllSpace(s: string) { forall i :: 0 <= i < |s| ==> s[i] in Whitespace }

  // ---------------------------------------------------------------- decimal numbers

  function DigitChar(d: nat): char
    requires d < 10
  {
    ('0' as int + d) as char
  }

  function DigitValue(c: char): nat
    requires IsDigit(c)
  {
    c as int - '0' as int
  }

  /** The digits str(n) writes for a non-negative n. */
  function DecDigits(n: nat): (r: string)
    ensures |r| >= 1
    decreases n
  {
    if n < 10 then [DigitChar(n)] else DecDigits(n / 10) + [DigitChar(n % 10)]
  }

  /** str(n), which is also "%d" % n. */
  function Dec(n: int): string
  {
    if n < 0 then "-" + DecDigits(-n) else DecDigits(n)
  }

  /** "%0<width>d" % n: the sign, then zeros up to the width, then the digits. */
  function DecPadded(n: int, width: nat): string
  {
    var sign := if n < 0 then "-" else "";
    var digits := DecDigits(if n < 0 then -n else n);
    sign + Zeros(width - |sign| - |digits|) + digits
  }

  /** k zeros, none when k is not positive. */
  function Zeros(k: int): (r: string)
    ensures |r| == if k < 0 then 0 else k
  {
    seq(if k < 0 then 0 else k, _ => '0')
  }

  /** The value of a string of decimal digits. */
  function DigitsValue(s: string): nat
    requires AllDigits(s)
  {
    if |s| == 0 then 0 else DigitsValue(s[..|s| - 1]) * 10 + DigitValue(s[|s| - 1])
  }

  /** Reads back an optionally negative decimal literal, the form Dec writes; None for anything else. */
  function ParseDec(s: string): Option<int>
  {
    if |s| > 1 && s[0] == '-' && AllDigits(s[1..]) then Some(-(DigitsValue(s[1..]) as int))
    else if |s| > 0 && AllDigits(s) then Some(DigitsValue(s))
    else None
  }

  lemma {:induction false} DecDigitsChars(n: nat)
    ensures AllDigits(DecDigits(n))
    decreases n
  {
    if n >= 10 {
      DecDigitsChars(n / 10);
    }
  }

  lemma {:induction false} DecDigitsValue(n: nat)
    ensures AllDigits(DecDigits(n)) && DigitsValue(DecDigits(n)) == n
    decreases n
  {
    DecDigitsChars(n);
    if n >= 10 {
      var s := DecDigits(n / 10) + [DigitChar(n % 10)];
      assert s[..|s| - 1] == DecDigits(n / 10);
      DecDigitsValue(n / 10);
    }
  }

  /** Dec and ParseDec are inverse: every integer the library formats into a command reads back. */
  lemma DecRoundTrip(n: int)
    ensures ParseDec(Dec(n)) == Some(n)
  {
    if n < 0 {
      DecDigitsValue(-n);
      assert Dec(n)[1..] == DecDigits(-n);
    } else {
      DecDigitsValue(n);
    }
  }

  /** Dec writes digits, after a minus sign for a negative number. */
  lemma DecChars(n: int)
    ensures |Dec(n)| > 0
    ensures forall i :: 0 <= i < |Dec(n)| ==> IsDigit(Dec(n)[i]) || (i == 0 && Dec(n)[i] == '-')
    ensures n >= 0 ==> Dec(n) == DecDigits(n)
  {
    var d := DecDigits(if n < 0 then -n else n);
    DecDigitsChars(if n < 0 then -n else n);
    if n < 0 {
      assert Dec(n) == "-" + d;
      assert forall i :: 1 <= i < |Dec(n)| ==> Dec(n)[i] == d[i - 1];
    }
  }

  /** Whether none of the characters of s is in cs. */
  predicate NoneIn(s: string, cs: set<char>)
  {
    forall i :: 0 <= i < |s| ==> s[i] !in cs
  }

  lemma NoneInConcat(a: string, b: string, cs: set<char>)
    requires NoneIn(a, cs) && NoneIn(b, cs)
    ensures NoneIn(a + b, cs)
  {
  }

  /** Dec writes neither blanks nor punctuation other than the minus sign. */
  lemma DecNoneIn(n: int, cs: set<char>)
    requires '-' !in cs && forall c :: c in cs ==> !IsDigit(c)
    ensures NoneIn(Dec(n), cs)
  {
    DecChars(n);
  }

  lemma DropPrefix<T>(p: seq<T>, x: seq<T>)
    ensures (p + x)[|p|..] == x && (p + x)[..|p|] == p
  {
  }

  // ---------------------------------------------------------------- hexadecimal numbers

  function HexChar(d: nat, upper: bool): char
    requires d < 16
  {
    if d < 10 then DigitChar(d)
    else if upper then ('A' as int + d - 10) as char
    else ('a' as int + d - 10) as char
  }

  function HexValue(c: char): nat
    requires IsHexDigit(c)
  {
    if IsDigit(c) then DigitValue(c)
    else if 'a' <= c <= 'f' then c as int - 'a' as int + 10
    else c as int - 'A' as int + 10
  }

  /** The digits "%x" % n (or "%X" % n when upper) writes for a non-negative n. */
  function HexDigits(n: nat, upper: bool): (r: string)
    ensures |r| >= 1
    decreases n
  {
    if n < 16 then [HexChar(n, upper)] else HexDigits(n / 16, upper) + [HexChar(n % 16, upper)]
  }

  /** "%0<width>x" % n, or "%0<width>X" % n when upper. */
  function HexPadded(n: int, width: nat, upper: bool): string
  {
    var sign := if n < 0 then "-" else "";
    var digits := HexDigits(if n < 0 then -n else n, upper);
    sign + Zeros(width - |sign| - |digits|) + digits
  }

  function HexDigitsValue(s: string): nat
    requires AllHexDigits(s)
  {
    if |s| == 0 then 0 else HexDigitsValue(s[..|s| - 1]) * 16 + HexValue(s[|s| - 1])
  }

  /** A digit of "%x" (lower case) or "%X" (upper case). */
  predicate IsCasedHexDigit(c: char, upper: bool)
  {
    IsDigit(c) || (if upper then 'A' <= c <= 'F' else 'a' <= c <= 'f')
  }

  predicate AllCasedHexDigits(s: string, upper: bool)
  {
    forall i :: 0 <= i < |s| ==> IsCasedHexDigit(s[i], upper)
  }

  lemma {:induction false} HexDigitsChars(n: nat, upper: bool)
    ensures AllCasedHexDigits(HexDigits(n, upper), upper)
    ensures AllHexDigits(HexDigits(n, upper))
    decreases n
  {
    if n >= 16 {
      HexDigitsChars(n / 16, upper);
      var p := HexDigits(n / 16, upper);
      var r := p + [HexChar(n % 16, upper)];
      assert forall i :: 0 <= i < |p| ==> r[i] == p[i];
    }
  }

  lemma {:induction false} HexDigitsRoundTrip(n: nat, upper: bool)
    ensures AllHexDigits(HexDigits(n, upper)) && HexDigitsValue(HexDigits(n, upper)) == n
    decreases n
  {
    HexDigitsChars(n, upper);
    if n >= 16 {
      var s := HexDigits(n / 16, upper) + [HexChar(n % 16, upper)];
      assert s[..|s| - 1] == HexDigits(n / 16, upper);
      HexDigitsRoundTrip(n / 16, upper);
    }
  }

  /** hex(n): "0x" and the lower-case digits, after a minus sign for a negative n. */
  function PyHex(n: int): string
  {
    if n < 0 then "-0x" + HexDigits(-n, false) else "0x" + HexDigits(n, false)
  }

  /**
   * int(s, 16): blanks around, an optional sign, an optional 0x prefix, then at least one
   * hexadecimal digit; None where int() raises ValueError.
   */
  function ParseHexLiteral(s: string): Option<int>
  {
    ParseHexStripped(Strip(s, Whitespace))
  }

  /** int(t, 16) for a t without surrounding blanks. */
  function ParseHexStripped(t: string): Option<int>
  {
    var negative := |t| > 0 && t[0] == '-';
    var u := if |t| > 0 && (t[0] == '-' || t[0] == '+') then t[1..] else t;
    var v := if |u| >= 2 && u[0] == '0' && (u[1] == 'x' || u[1] == 'X') then u[2..] else u;
    if |v| > 0 && AllHexDigits(v) then
      Some(if negative then -(HexDigitsValue(v) as int) else HexDigitsValue(v))
    else None
  }

  /** int(d, 16) of the digits hex() writes gives back their value. */
  lemma HexLiteralOfDigits(d: string)
    requires |d| > 0 && AllCasedHexDigits(d, false)
    ensures ParseHexLiteral(d) == Some(HexDigitsValue(d))
  {
    assert IsCasedHexDigit(d[0], false) && IsCasedHexDigit(d[|d| - 1], false);
    StripExact("", d, "", Whitespace);
    assert "" + d + "" == d;
    HexStrippedOfDigits(d);
  }

  lemma HexStrippedOfDigits(d: string)
    requires |d| > 0 && AllCasedHexDigits(d, false)
    ensures ParseHexStripped(d) == Some(HexDigitsValue(d))
  {
    assert IsCasedHexDigit(d[0], false);
    assert |d| >= 2 ==> IsCasedHexDigit(d[1], false);
    assert AllHexDigits(d) by {
      forall i | 0 <= i < |d| ensures IsHexDigit(d[i]) {
        assert IsCasedHexDigit(d[i], false);
      }
    }
  }

  // ---------------------------------------------------------------- str methods

  /** s.lstrip(chars) for the set of characters cs. */
  function LStrip(s: string, cs: set<char>): (r: string)
    ensures |r| <= |s|
    ensures |r| > 0 ==> r[0] !in cs
    decreases |s|
  {
    if |s| > 0 && s[0] in cs then LStrip(s[1..], cs) else s
  }

  /** What lstrip leaves is a suffix of its argument. */
  lemma {:induction false} LStripSuffix(s: string, cs: set<char>)
    ensures LStrip(s, cs) == s[|s| - |LStrip(s, cs)|..]
    decreases |s|
  {
    if |s| > 0 && s[0] in cs {
      LStripSuffix(s[1..], cs);
    }
  }

  /** s.rstrip(chars) for the set of characters cs. */
  function RStrip(s: string, cs: set<char>): (r: string)
    ensures |r| <= |s|
    ensures |r| > 0 ==> r[|r| - 1] !in cs
    decreases |s|
  {
    if |s| > 0 && s[|s| - 1] in cs then RStrip(s[..|s| - 1], cs) else s
  }

  /** What rstrip leaves is a prefix of its argument. */
  lemma {:induction false} RStripPrefix(s: string, cs: set<char>)
    ensures RStrip(s, cs) == s[..|RStrip(s, cs)|]
    decreases |s|
  {
    if |s| > 0 && s[|s| - 1] in cs {
      RStripPrefix(s[..|s| - 1], cs);
    }
  }

  /** s.strip(chars) for the set of characters cs. */
  function Strip(s: string, cs: set<char>): (r: string)
    ensures |r| > 0 ==> r[0] !in cs && r[|r| - 1] !in cs
  {
    var l := LStrip(s, cs);
    var r := RStrip(l, cs);
    RStripPrefix(l, cs);
    assert |r| > 0 ==> r[0] == l[0];
    r
  }

  /** s.split(c) for a one-character separator: never empty, the pieces never contain c. */
  function Split(s: string, c: char): (r: seq<string>)
    ensures |r| >= 1
    ensures forall k :: 0 <= k < |r| ==> c !in r[k]
    decreases |s|
  {
    if |s| == 0 then [""]
    else if s[0] == c then [""] + Split(s[1..], c)
    else
      var rest := Split(s[1..], c);
      [[s[0]] + rest[0]] + rest[1..]
  }

  /** c.join(pieces). */
  function Join(pieces: seq<string>, c: char): string
  {
    if |pieces| == 0 then ""
    else if |pieces| == 1 then pieces[0]
    else pieces[0] + [c] + Join(pieces[1..], c)
  }

  lemma {:induction false} SplitJoin(s: string, c: char)
    ensures Join(Split(s, c), c) == s
    decreases |s|
  {
    if |s| > 0 {
      SplitJoin(s[1..], c);
      var rest := Split(s[1..], c);
      if s[0] == c {
        assert Split(s, c) == [""] + rest;
        assert Join(Split(s, c), c) == "" + [c] + Join(rest, c);
      } else {
        if |rest| == 1 {
          assert Join(Split(s, c), c) == [s[0]] + rest[0];
        } else {
          assert rest == [rest[0]] + rest[1..];
          assert Join(rest, c) == rest[0] + [c] + Join(rest[1..], c);
          assert Join(Split(s, c), c) == [s[0]] + rest[0] + [c] + Join(rest[1..], c);
        }
      }
    }
  }

  lemma {:induction false} JoinSplit(pieces: seq<string>, c: char)
    requires |pieces| >= 1
    requires forall k :: 0 <= k < |pieces| ==> c !in pieces[k]
    ensures Split(Join(pieces, c), c) == pieces
    decreases |pieces|
  {
    if |pieces| == 1 {
      SplitPlain(pieces[0], c);
    } else {
      JoinSplit(pieces[1..], c);
      SplitAppend(pieces[0], Join(pieces[1..], c), c);
    }
  }

  lemma {:induction false} SplitPlain(s: string, c: char)
    requires c !in s
    ensures Split(s, c) == [s]
    decreases |s|
  {
    if |s| > 0 {
      SplitPlain(s[1..], c);
      assert s[0] != c;
      assert [s[0]] + s[1..] == s;
    }
  }

  /** Splitting p + [c] + rest, where p has no c, puts p in front of the pieces of rest. */
  lemma {:induction false} SplitAppend(p: string, rest: string, c: char)
    requires c !in p
    ensures Split(p + [c] + rest, c) == [p] + Split(rest, c)
    decreases |p|
  {
    var s := p + [c] + rest;
    if |p| == 0 {
      assert s[0] == c && s[1..] == rest;
    } else {
      assert s[0] == p[0] && s[1..] == p[1..] + [c] + rest;
      SplitAppend(p[1..], rest, c);
      assert [p[0]] + p[1..] == p;
    }
  }

  /** The longest prefix of s without a blank. */
  function TakeWord(s: string): (r: string)
    ensures |r| <= |s| && r == s[..|r|]
    ensures |s| > 0 && s[0] !in Whitespace ==> |r| > 0
    ensures |r| < |s| ==> s[|r|] in Whitespace
    decreases |s|
  {
    if |s| > 0 && s[0] !in Whitespace then [s[0]] + TakeWord(s[1..]) else ""
  }

  /** s.split() with no argument: the runs of non-blank characters, in order. */
  function Words(s: string): seq<string>
    decreases |s|
  {
    var t := LStrip(s, Whitespace);
    if |t| == 0 then []
    else
      var w := TakeWord(t);
      [w] + Words(t[|w|..])
  }

  lemma {:induction false} LStripAppend(a: string, b: string, cs: set<char>)
    ensures LStrip(a + b, cs) == if LStrip(a, cs) == "" then LStrip(b, cs) else LStrip(a, cs) + b
    decreases |a|
  {
    if |a| > 0 {
      assert (a + b)[0] == a[0] && (a + b)[1..] == a[1..] + b;
      if a[0] in cs {
        LStripAppend(a[1..], b, cs);
      }
    } else {
      assert a + b == b;
    }
  }

  lemma {:induction false} TakeWordStopsAtBlank(t: string)
    requires |t| > 0 && t[|t| - 1] in Whitespace
    ensures |TakeWord(t)| < |t|
    decreases |t|
  {
    if t[0] !in Whitespace {
      TakeWordStopsAtBlank(t[1..]);
    }
  }

  lemma {:induction false} TakeWordAppend(t: string, b: string)
    requires |TakeWord(t)| < |t|
    ensures TakeWord(t + b) == TakeWord(t)
    decreases |t|
  {
    assert (t + b)[0] == t[0] && (t + b)[1..] == t[1..] + b;
    if t[0] !in Whitespace {
      TakeWordAppend(t[1..], b);
    }
  }

  /** Splitting on blanks distributes over a concatenation whose left part ends in a blank. */
  lemma {:induction false} WordsAppend(a: string, b: string)
    requires a == "" || a[|a| - 1] in Whitespace
    ensures Words(a + b) == Words(a) + Words(b)
    decreases |a|, 1
  {
    LStripAppend(a, b, Whitespace);
    if LStrip(a, Whitespace) == "" {
      WordsOfStripped(a + b, b);
      assert Words(a) == [];
      assert Words(a) + Words(b) == Words(b);
    } else {
      WordsAppendWord(a, b);
    }
  }

  lemma {:induction false} WordsAppendWord(a: string, b: string)
    requires |a| > 0 && a[|a| - 1] in Whitespace
    requires LStrip(a, Whitespace) != ""
    ensures Words(a + b) == Words(a) + Words(b)
    decreases |a|, 0
  {
    var ta := LStrip(a, Whitespace);
    LStripAppend(a, b, Whitespace);
    LStripSuffix(a, Whitespace);
    assert ta[|ta| - 1] == a[|a| - 1];
    var w := TakeWord(ta);
    TakeWordStopsAtBlank(ta);
    TakeWordAppend(ta, b);
    var rest := ta[|w|..];
    SliceAppend(ta, b, |w|);
    WordsStep(a + b, ta + b, w);
    WordsStep(a, ta, w);
    WordsAppend(rest, b);
    ConcatAssoc([w], Words(rest), Words(b));
  }

  lemma SliceAppend<T>(x: seq<T>, y: seq<T>, k: nat)
    requires k <= |x|
    ensures (x + y)[k..] == x[k..] + y
  {
  }

  lemma WordsStep(s: string, t: string, w: string)
    requires t == LStrip(s, Whitespace) && t != "" && w == TakeWord(t)
    ensures Words(s) == [w] + Words(t[|w|..])
  {
  }

  lemma ConcatAssoc<T>(x: seq<T>, y: seq<T>, z: seq<T>)
    ensures x + (y + z) == (x + y) + z
  {
  }

  lemma WordsOfStripped(s1: string, s2: string)
    requires LStrip(s1, Whitespace) == LStrip(s2, Whitespace)
    ensures Words(s1) == Words(s2)
  {
  }

  /** A word, a blank, then more text: that word comes first, then the words of the rest. */
  lemma WordsCons(w: string, rest: string)
    requires |w| > 0 && NoneIn(w, Whitespace)
    ensures Words(w + " " + rest) == [w] + Words(rest)
  {
    var s := w + " " + rest;
    assert s == w + (" " + rest);
    assert s[0] == w[0];
    assert LStrip(s, Whitespace) == s;
    TakeWordOfWord(w, " " + rest);
    DropPrefix(w, " " + rest);
    WordsStep(s, s, w);
    assert LStrip(" " + rest, Whitespace) == LStrip((" " + rest)[1..], Whitespace);
    DropPrefix(" ", rest);
    WordsOfStripped(" " + rest, rest);
  }

  /** Appending a word and a blank to a text that ends in a blank appends that word to its words. */
  lemma WordsSnoc(prev: string, w: string)
    requires prev == "" || prev[|prev| - 1] in Whitespace
    requires |w| > 0 && NoneIn(w, Whitespace)
    ensures Words(prev + (w + " ")) == Words(prev) + [w]
  {
    WordThenBlank(w);
    WordsAppend(prev, w + " ");
  }

  /** A word followed by a blank splits into that word alone. */
  lemma WordThenBlank(w: string)
    requires |w| > 0 && forall i :: 0 <= i < |w| ==> w[i] !in Whitespace
    ensures Words(w + " ") == [w]
  {
    var s := w + " ";
    assert s[0] == w[0];
    TakeWordOfWord(w, " ");
    assert s[|w|..] == " ";
    assert LStrip(" ", Whitespace) == LStrip("", Whitespace);
  }

  /** A run of non-blank characters followed by a blank (or nothing) is the word taken. */
  lemma {:induction false} TakeWordOfWord(w: string, rest: string)
    requires forall i :: 0 <= i < |w| ==> w[i] !in Whitespace
    requires rest == "" || rest[0] in Whitespace
    ensures TakeWord(w + rest) == w
    decreases |w|
  {
    if |w| > 0 {
      SliceAppend(w, rest, 1);
      TakeWordOfWord(w[1..], rest);
    } else {
      assert w + rest == rest;
    }
  }

  /** Stripping a set of characters removes exactly the surrounding runs of them. */
  lemma StripExact(pre: string, d: string, post: string, cs: set<char>)
    requires forall i :: 0 <= i < |pre| ==> pre[i] in cs
    requires forall i :: 0 <= i < |post| ==> post[i] in cs
    requires |d| > 0 && d[0] !in cs && d[|d| - 1] !in cs
    ensures Strip(pre + d + post, cs) == d
  {
    LStripPrefix(pre, d + post, cs);
    assert pre + d + post == pre + (d + post);
    RStripSuffix(d, post, cs);
  }

  lemma {:induction false} LStripPrefix(pre: string, rest: string, cs: set<char>)
    requires forall i :: 0 <= i < |pre| ==> pre[i] in cs
    requires |rest| > 0 && rest[0] !in cs
    ensures LStrip(pre + rest, cs) == rest
    decreases |pre|
  {
    if |pre| > 0 {
      assert (pre + rest)[1..] == pre[1..] + rest;
      LStripPrefix(pre[1..], rest, cs);
    } else {
      assert pre + rest == rest;
    }
  }

  lemma {:induction false} RStripSuffix(d: string, post: string, cs: set<char>)
    requires forall i :: 0 <= i < |post| ==> post[i] in cs
    requires |d| > 0 && d[|d| - 1] !in cs
    ensures RStrip(d + post, cs) == d
    decreases |post|
  {
    if |post| > 0 {
      var s := d + post;
      assert s[|s| - 1] == post[|post| - 1];
      assert s[..|s| - 1] == d + post[..|post| - 1];
      RStripSuffix(d, post[..|post| - 1], cs);
    } else {
      assert d + post == d;
    }
  }

  /** The longest prefix of decimal digits. */
  function TakeDigits(s: string): (r: string)
    ensures |r| <= |s| && r == s[..|r|] && AllDigits(r)
    ensures |r| < |s| ==> !IsDigit(s[|r|])
  {
    if |s| > 0 && IsDigit(s[0]) then [s[0]] + TakeDigits(s[1..]) else ""
  }

  lemma {:induction false} TakeDigitsOf(d: string, rest: string)
    requires AllDigits(d)
    requires rest == "" || !IsDigit(rest[0])
    ensures TakeDigits(d + rest) == d
    decreases |d|
  {
    if |d| > 0 {
      assert (d + rest)[1..] == d[1..] + rest;
      TakeDigitsOf(d[1..], rest);
    } else {
      assert d + rest == rest;
    }
  }

  /** The first c in a + b, where a has none, is the first c in b, shifted by |a|. */
  lemma {:induction false} FirstIndexConcat(a: string, b: string, c: char)
    requires c !in a
    ensures FirstIndex(a + b, c) == match FirstIndex(b, c) case None => None case Some(k) => Some(|a| + k)
    decreases |a|
  {
    if |a| > 0 {
      assert (a + b)[0] == a[0];
      SliceAppend(a, b, 1);
      FirstIndexConcat(a[1..], b, c);
    } else {
      assert a + b == b;
    }
  }

  /** The index of the first c in s. */
  function FirstIndex(s: string, c: char): (r: Option<nat>)
    ensures r.Some? ==> r.value < |s| && s[r.value] == c && c !in s[..r.value]
    ensures r.None? <==> c !in s
  {
    if |s| == 0 then None
    else if s[0] == c then Some(0)
    else match FirstIndex(s[1..], c)
      case None => None
      case Some(k) =>
        assert s[..k + 1] == [s[0]] + s[1..][..k];
        Some(k + 1)
  }

  /** An index holding c with no c before it is the first index of c. */
  lemma {:induction false} FirstIndexAt(s: string, k: nat, c: char)
    requires k < |s| && s[k] == c && c !in s[..k]
    ensures FirstIndex(s, c) == Some(k)
    decreases k
  {
    if k > 0 {
      assert s[0] == s[..k][0];
      assert s[1..][..k - 1] == s[1..k];
      FirstIndexAt(s[1..], k - 1, c);
    }
  }

  /** Whether pat occurs in s. */
  predicate Contains(s: string, pat: string)
    decreases |s|
  {
    (|pat| <= |s| && s[..|pat|] == pat) || (|s| > 0 && Contains(s[1..], pat))
  }

  /** s.replace(pat, rep): every non-overlapping occurrence, scanning from the left. */
  function Replace(s: string, pat: string, rep: string): string
    decreases |s|
  {
    if pat == "" then Interleave(s, rep)
    else if |s| < |pat| then s
    else if s[..|pat|] == pat then rep + Replace(s[|pat|..], pat, rep)
    else [s[0]] + Replace(s[1..], pat, rep)
  }

  /** s.replace("", rep) puts rep before every character and at the end. */
  function Interleave(s: string, rep: string): string
    decreases |s|
  {
    if |s| == 0 then rep else rep + [s[0]] + Interleave(s[1..], rep)
  }

  /** A pattern that does not occur leaves the text unchanged. */
  lemma {:induction false} ReplaceAbsent(s: string, pat: string, rep: string)
    requires pat != "" && !Contains(s, pat)
    ensures Replace(s, pat, rep) == s
    decreases |s|
  {
    if |s| >= |pat| {
      ReplaceAbsent(s[1..], pat, rep);
      assert [s[0]] + s[1..] == s;
    }
  }

  /** hex(n).replace('0x', '$'): the form the library writes a hexadecimal I-variable value in. */
  function DollarHex(n: int): string
  {
    (if n < 0 then "-$" else "$") + HexDigits(if n < 0 then -n else n, false)
  }

  /** DollarHex writes what replacing "0x" by "$" in hex(n) gives. */
  lemma HexDollarForm(n: int)
    ensures DollarHex(n) == Replace(PyHex(n), "0x", "$")
  {
    var d := HexDigits(if n < 0 then -n else n, false);
    HexDigitsChars(if n < 0 then -n else n, false);
    NoXInHexDigits(d);
    ReplaceAbsent(d, "0x", "$");
    if n < 0 {
      var s := "-0x" + d;
      assert s[0] == '-' && s[..2] != "0x";
      assert s[1..][..2] == "0x" && s[1..][2..] == d;
      assert s[1..] == "0x" + d;
    } else {
      assert ("0x" + d)[2..] == d;
    }
  }

  lemma {:induction false} NoXInHexDigits(d: string)
    requires AllHexDigits(d)
    ensures !Contains(d, "0x")
    decreases |d|
  {
    if |d| > 0 {
      NoXInHexDigits(d[1..]);
      if |d| >= 2 {
        assert d[1] != 'x';
      }
    }
  }

  /** repr(s) of a Python 2 byte string, quotes included. */
  function Repr(s: string): string
  {
    var q := if '\'' in s && '"' !in s then '"' else '\'';
    [q] + ReprBody(s, q) + [q]
  }

  function ReprBody(s: string, q: char): string
  {
    if |s| == 0 then "" else ReprChar(s[0], q) + ReprBody(s[1..], q)
  }

  function ReprChar(c: char, q: char): string
  {
    if c == q || c == '\\' then ['\\', c]
    else if c == '\t' then "\\t"
    else if c == '\n' then "\\n"
    else if c == '\r' then "\\r"
    else if c < ' ' || c >= '\U{7f}' then
      "\\x" + [HexChar((c as int / 16) % 16, false), HexChar(c as int % 16, false)]
    else [c]
  }

  /** xs[i] on a Python list: negative indices count from the end; None where Python raises IndexError. */
  function PyIndex<T>(xs: seq<T>, i: int): (r: Option<T>)
    ensures r.Some? <==> -|xs| <= i < |xs|
  {
    if 0 <= i < |xs| then Some(xs[i])
    else if -|xs| <= i < 0 then Some(xs[|xs| + i])
    else None
  }

  // ---------------------------------------------------------------- bits of integers

  function Pow2(k: nat): (r: nat)
    ensures r >= 1
  {
    if k == 0 then 1 else 2 * Pow2(k - 1)
  }

  /** (n >> j) & 1 == 1 for a Python integer, negative ones in two's complement. */
  predicate Bit(n: int, j: nat)
    decreases j
  {
    if j == 0 then n % 2 == 1 else Bit(n / 2, j - 1)
  }

  /** n | (1 << k). */
  function SetBit(n: int, k: nat): int
  {
    if Bit(n, k) then n else n + Pow2(k)
  }

  /** n ^ (1 << k). */
  function FlipBit(n: int, k: nat): int
  {
    if Bit(n, k) then n - Pow2(k) else n + Pow2(k)
  }

  /** Flipping bit k inverts that bit and leaves every other bit as it was. */
  lemma {:induction false} FlipBitBits(n: int, k: nat, j: nat)
    ensures Bit(FlipBit(n, k), j) == if j == k then !Bit(n, k) else Bit(n, j)
    decreases k
  {
    var m := FlipBit(n, k);
    if k == 0 {
      assert m / 2 == n / 2 && m % 2 != n % 2;
    } else {
      var p := Pow2(k - 1);
      assert Bit(n, k) == Bit(n / 2, k - 1);
      if Bit(n, k) {
        assert m == n - 2 * p;
        assert m / 2 == n / 2 - p && m % 2 == n % 2;
      } else {
        assert m == n + 2 * p;
        assert m / 2 == n / 2 + p && m % 2 == n % 2;
      }
      assert m / 2 == FlipBit(n / 2, k - 1);
      if j > 0 {
        FlipBitBits(n / 2, k - 1, j - 1);
      }
    }
  }

  /** Setting bit k turns that bit on and leaves every other bit as it was. */
  lemma SetBitBits(n: int, k: nat, j: nat)
    ensures Bit(SetBit(n, k), j) == (j == k || Bit(n, j))
  {
    if !Bit(n, k) {
      FlipBitBits(n, k, j);
    }
  }

  lemma {:induction false} ZeroHasNoBits(j: nat)
    ensures !Bit(0, j)
    decreases j
  {
    if j > 0 {
      ZeroHasNoBits(j - 1);
    }
  }

  /** 2^a - 1 has exactly the bits 0 .. a-1. */
  lemma {:induction false} LowMaskBits(a: nat, j: nat)
    ensures Bit(Pow2(a) - 1, j) == (j < a)
    decreases a
  {
    if a == 0 {
      ZeroHasNoBits(j);
    } else {
      var m := Pow2(a) - 1;
      assert m == 2 * (Pow2(a - 1) - 1) + 1;
      assert m % 2 == 1 && m / 2 == Pow2(a - 1) - 1;
      if j > 0 {
        LowMaskBits(a - 1, j - 1);
      }
    }
  }
}
