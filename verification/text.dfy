/** Character classes and the string primitives the scripts take from
    Python: `str.strip()`, `str.splitlines()`, `str.split()`, `int()` in
    base 10, and the greedy runs that `\s+`, `\d+`, `\w+` and `[a-zA-Z]+`
    match in a regular expression. Character classes are the ASCII ones
    that Python 2 byte strings and patterns use. */
module Text {
  import opened Results

  /** `\s`, and the characters `strip()` and `split()` remove. */
  predicate IsSpace(c: char) {
    c == ' ' || c == '\t' || c == '\n' || c == '\r' || c == '\U{000B}' || c == '\U{000C}'
  }

  predicate IsNonSpace(c: char) { !IsSpace(c) }

  /** `\d` */
  predicate IsDigit(c: char) { '0' <= c <= '9' }

  /** `[a-zA-Z]` */
  predicate IsLetter(c: char) { 'a' <= c <= 'z' || 'A' <= c <= 'Z' }

  /** `\w` */
  predicate IsWordChar(c: char) { IsLetter(c) || IsDigit(c) || c == '_' }

  /** Line boundaries recognised by `splitlines()`: `\n`, `\r` and `\r\n`. */
  predicate IsLineBreak(c: char) { c == '\n' || c == '\r' }

  predicate IsLineChar(c: char) { !IsLineBreak(c) }

  /** Every character of `s` is in the class `p`. */
  predicate All(s: string, p: char -> bool) {
    forall i | 0 <= i < |s| :: p(s[i])
  }

  /** Regroupings of concatenations, stated once so that proofs about
      long strings need not rediscover them. */
  lemma JoinNil<T>(b: seq<T>)
    ensures [] + b == b
  {
  }

  lemma SplitHead<T>(a: seq<T>, b: seq<T>)
    requires a != []
    ensures (a + b)[0] == a[0] && (a + b)[1..] == a[1..] + b
  {
  }

  lemma Assoc<T>(x: seq<T>, y: seq<T>, z: seq<T>)
    ensures x + (y + z) == (x + y) + z
  {
  }

  lemma Regroup<T>(a: seq<T>, x: T, m: seq<T>, y: T, b: seq<T>)
    ensures a + ([x] + m + [y] + b) == a + [x] + m + [y] + b
  {
  }

  lemma NestRight<T>(a: seq<T>, b: seq<T>, c: seq<T>, d: seq<T>)
    ensures a + b + c + d == a + (b + (c + d))
  {
  }

  lemma JoinEmpty<T>(a: seq<T>, b: seq<T>)
    ensures a + [] + b + [] == a + b
  {
  }

  /** A non-empty run of decimal digits, as `\d+` matches. */
  predicate Numeral(s: string) { s != [] && All(s, IsDigit) }

  /** A non-empty run of blank space, as `\s+` matches. */
  predicate Blank(s: string) { s != [] && All(s, IsSpace) }

  predicate StartsWith(s: string, prefix: string) {
    |prefix| <= |s| && s[..|prefix|] == prefix
  }

  /** The longest prefix of `s` in class `p`, and what follows it: the
      match of a greedy `p*`. */
  function TakeWhile(s: string, p: char -> bool): (r: (string, string))
    ensures r.0 + r.1 == s
    ensures All(r.0, p)
    ensures r.1 == [] || !p(r.1[0])
  {
    if s != [] && p(s[0]) then
      var (run, rest) := TakeWhile(s[1..], p);
      assert s == [s[0]] + s[1..];
      ([s[0]] + run, rest)
    else
      ([], s)
  }

  /** A greedy run is exactly the run it was built from, whenever what
      follows the run starts outside the class. */
  lemma {:induction false} TakeWhileSplits(run: string, rest: string, p: char -> bool)
    requires All(run, p)
    requires rest == [] || !p(rest[0])
    ensures TakeWhile(run + rest, p) == (run, rest)
  {
    if run == [] {
      assert run + rest == rest;
    } else {
      assert (run + rest)[0] == run[0];
      assert (run + rest)[1..] == run[1..] + rest;
      TakeWhileSplits(run[1..], rest, p);
      assert [run[0]] + run[1..] == run;
    }
  }

  /** `p+`: a non-empty greedy run and the remainder after it. */
  function Run1(s: string, p: char -> bool): (r: Option<(string, string)>)
    ensures r.Some? <==> s != [] && p(s[0])
    ensures r.Some? ==> r.value.0 != [] && All(r.value.0, p) && r.value.0 + r.value.1 == s
    ensures r.Some? ==> r.value.1 == [] || !p(r.value.1[0])
  {
    var (run, rest) := TakeWhile(s, p);
    if run == [] then None else Some((run, rest))
  }

  lemma Run1Splits(run: string, rest: string, p: char -> bool)
    requires run != [] && All(run, p)
    requires rest == [] || !p(rest[0])
    ensures Run1(run + rest, p) == Some((run, rest))
  {
    TakeWhileSplits(run, rest, p);
  }

  /** One character of class `p`, e.g. `[|`]`. */
  function OneChar(s: string, p: char -> bool): (r: Option<(char, string)>)
    ensures r.Some? <==> s != [] && p(s[0])
    ensures r.Some? ==> p(r.value.0) && [r.value.0] + r.value.1 == s
  {
    if s != [] && p(s[0]) then
      assert [s[0]] + s[1..] == s;
      Some((s[0], s[1..]))
    else None
  }

  /** A literal piece of a pattern; the result is what follows it. */
  function Literal(s: string, lit: string): (r: Option<string>)
    ensures r.Some? <==> StartsWith(s, lit)
    ensures r.Some? ==> lit + r.value == s
  {
    if StartsWith(s, lit) then
      assert s == s[..|lit|] + s[|lit|..];
      Some(s[|lit|..])
    else None
  }

  lemma LiteralSplits(lit: string, rest: string)
    ensures Literal(lit + rest, lit) == Some(rest)
  {
    assert (lit + rest)[..|lit|] == lit;
    assert (lit + rest)[|lit|..] == rest;
  }

  /** `s` without trailing whitespace. */
  function TrimEnd(s: string): (r: string)
    ensures |r| <= |s| && r == s[..|r|]
    ensures All(s[|r|..], IsSpace)
    ensures r == [] || !IsSpace(r[|r| - 1])
    decreases |s|
  {
    if s != [] && IsSpace(s[|s| - 1]) then
      var init := s[..|s| - 1];
      var r := TrimEnd(init);
      assert init[..|r|] == s[..|r|];
      assert s[|r|..] == init[|r|..] + [s[|s| - 1]];
      assert forall i | 0 <= i < |s[|r|..]| :: IsSpace(s[|r|..][i]) by {
        forall i | 0 <= i < |s[|r|..]|
          ensures IsSpace(s[|r|..][i])
        {
          if i < |init[|r|..]| {
            assert s[|r|..][i] == init[|r|..][i];
          }
        }
      }
      r
    else
      s
  }

  /** `str.strip()`: leading and trailing whitespace removed. */
  function Strip(s: string): (r: string)
    ensures |r| <= |s|
    ensures r == [] || (!IsSpace(r[0]) && !IsSpace(r[|r| - 1]))
  {
    var rest := TakeWhile(s, IsSpace).1;
    var r := TrimEnd(rest);
    assert r != [] ==> r[0] == rest[0];
    r
  }

  lemma {:induction false} TrimEndPadded(core: string, pad: string)
    requires All(pad, IsSpace)
    requires core == [] || !IsSpace(core[|core| - 1])
    ensures TrimEnd(core + pad) == core
    decreases |pad|
  {
    if pad == [] {
      assert core + pad == core;
    } else {
      var s := core + pad;
      assert s[..|s| - 1] == core + pad[..|pad| - 1];
      TrimEndPadded(core, pad[..|pad| - 1]);
    }
  }

  /** What `strip()` removes is exactly the surrounding whitespace:
      padding a string that does not itself start or end in whitespace
      and stripping it gives the string back. */
  lemma StripPadded(pre: string, core: string, post: string)
    requires All(pre, IsSpace) && All(post, IsSpace)
    requires core == [] || (!IsSpace(core[0]) && !IsSpace(core[|core| - 1]))
    ensures Strip(pre + core + post) == core
  {
    if core == [] {
      assert pre + core + post == (pre + post) + [];
      TakeWhileSplits(pre + post, [], IsSpace);
      assert TrimEnd([]) == [];
    } else {
      assert pre + core + post == pre + (core + post);
      TakeWhileSplits(pre, core + post, IsSpace);
      TrimEndPadded(core, post);
    }
  }

  /** `str.splitlines()`: the lines of `s` without their terminators. A
      final terminator does not start an empty line. */
  function SplitLines(s: string): (lines: seq<string>)
    ensures forall i | 0 <= i < |lines| :: All(lines[i], IsLineChar)
    ensures s == [] <==> lines == []
    decreases |s|
  {
    if s == [] then []
    else
      var (line, rest) := TakeWhile(s, IsLineChar);
      if rest == [] then [line]
      else
        var next := if rest[0] == '\r' && |rest| > 1 && rest[1] == '\n' then rest[2..] else rest[1..];
        [line] + SplitLines(next)
  }

  /** Lines joined with a `\n` after each: the text a command prints. */
  function Unlines(lines: seq<string>): string {
    if lines == [] then [] else lines[0] + "\n" + Unlines(lines[1..])
  }

  /** Splitting printed lines gives back exactly those lines. */
  lemma {:induction false} SplitUnlines(lines: seq<string>)
    requires forall i | 0 <= i < |lines| :: All(lines[i], IsLineChar)
    ensures SplitLines(Unlines(lines)) == lines
  {
    if lines != [] {
      var tail := Unlines(lines[1..]);
      assert Unlines(lines) == lines[0] + ("\n" + tail);
      TakeWhileSplits(lines[0], "\n" + tail, IsLineChar);
      assert ("\n" + tail)[1..] == tail;
      SplitUnlines(lines[1..]);
      assert [lines[0]] + lines[1..] == lines;
    }
  }

  /** `str.split()` with no separator: the maximal runs of
      non-whitespace characters, in order. */
  function Words(s: string): (ws: seq<string>)
    ensures forall i | 0 <= i < |ws| :: ws[i] != [] && All(ws[i], IsNonSpace)
    decreases |s|
  {
    var rest := TakeWhile(s, IsSpace).1;
    if rest == [] then []
    else
      var (w, rest') := TakeWhile(rest, IsNonSpace);
      [w] + Words(rest')
  }

  /** Words each followed by one space. */
  function Spaced(ws: seq<string>): string {
    if ws == [] then [] else ws[0] + " " + Spaced(ws[1..])
  }

  /** Splitting space-separated words gives back exactly those words. */
  lemma {:induction false} WordsSpaced(ws: seq<string>)
    requires forall i | 0 <= i < |ws| :: ws[i] != [] && All(ws[i], IsNonSpace)
    ensures Words(Spaced(ws)) == ws
  {
    if ws == [] {
      assert TakeWhile([], IsSpace).1 == [];
    } else {
      var tail := Spaced(ws[1..]);
      assert Spaced(ws) == [] + (ws[0] + (" " + tail));
      TakeWhileSplits([], ws[0] + (" " + tail), IsSpace);
      TakeWhileSplits(ws[0], " " + tail, IsNonSpace);
      assert " " + tail == [' '] + tail;
      if tail == [] {
        TakeWhileSplits([' '], [], IsSpace);
        assert [' '] + [] == [' '];
      } else {
        assert !IsSpace(tail[0]) by {
          assert tail == ws[1] + (" " + Spaced(ws[2..]));
          assert tail[0] == ws[1][0];
        }
        TakeWhileSplits([' '], tail, IsSpace);
      }
      assert Words(" " + tail) == Words(tail) by {
        assert TakeWhile(" " + tail, IsSpace).1 == TakeWhile(tail, IsSpace).1 by {
          if tail != [] {
            TakeWhileSplits([], tail, IsSpace);
            assert [] + tail == tail;
          }
        }
      }
      WordsSpaced(ws[1..]);
      assert [ws[0]] + ws[1..] == ws;
    }
  }

  function DigitValue(c: char): nat
    requires IsDigit(c)
  {
    (c as int - '0' as int) as nat
  }

  /** The value of a decimal numeral, most significant digit first. */
  function DigitsValue(s: string): nat
    requires All(s, IsDigit)
    decreases |s|
  {
    if s == [] then 0 else DigitsValue(s[..|s| - 1]) * 10 + DigitValue(s[|s| - 1])
  }

  /** Python's `int(s)` in base 10: surrounding whitespace, an optional
      sign, then one or more decimal digits; anything else is a
      `ValueError`, modelled as `None`. */
  function ParseInt(s: string): (r: Option<int>)
    ensures r.Some? ==> Strip(s) != []
  {
    var t := Strip(s);
    if t == [] then None
    else
      var negative := t[0] == '-';
      var body := if t[0] == '-' || t[0] == '+' then t[1..] else t;
      if body != [] && All(body, IsDigit) then
        Some(if negative then -(DigitsValue(body) as int) else DigitsValue(body) as int)
      else None
  }

  function DigitChar(d: nat): (c: char)
    requires d < 10
    ensures IsDigit(c) && DigitValue(c) == d
  {
    ('0' as int + d) as char
  }

  /** The decimal numeral of `n`, as `str(n)` writes it. */
  function ShowNat(n: nat): (s: string)
    ensures s != [] && All(s, IsDigit)
    decreases n
  {
    if n < 10 then [DigitChar(n)] else ShowNat(n / 10) + [DigitChar(n % 10)]
  }

  /** Reading back a written numeral gives the number. */
  lemma {:induction false} ShowNatValue(n: nat)
    ensures DigitsValue(ShowNat(n)) == n
    decreases n
  {
    var s := ShowNat(n);
    if n >= 10 {
      assert s[..|s| - 1] == ShowNat(n / 10);
      ShowNatValue(n / 10);
    }
  }

  lemma ParseIntOfNumeral(pre: string, sign: string, n: nat, post: string)
    requires All(pre, IsSpace) && All(post, IsSpace)
    requires sign == "" || sign == "+" || sign == "-"
    ensures ParseInt(pre + sign + ShowNat(n) + post) == Some(if sign == "-" then -(n as int) else n as int)
  {
    NumeralStripped(pre, sign, n, post);
    SignedNumeralValue(pre + sign + ShowNat(n) + post, sign, n);
  }

  lemma SignedNumeralValue(s: string, sign: string, n: nat)
    requires sign == "" || sign == "+" || sign == "-"
    requires Strip(s) == sign + ShowNat(n)
    ensures ParseInt(s) == Some(if sign == "-" then -(n as int) else n as int)
  {
    ShowNatValue(n);
    assert Numeral(ShowNat(n));
    SignedDigitsValue(s, sign, ShowNat(n));
  }

  lemma NumeralStripped(pre: string, sign: string, n: nat, post: string)
    requires All(pre, IsSpace) && All(post, IsSpace)
    requires sign == "" || sign == "+" || sign == "-"
    ensures Strip(pre + sign + ShowNat(n) + post) == sign + ShowNat(n)
  {
    DigitsStripped(pre, sign, ShowNat(n), post);
  }

  /** The text `int()` accepts: blank space, an optional sign, a digit
      run, and blank space. */
  predicate IsSign(sign: string) { sign == "" || sign == "+" || sign == "-" }

  predicate NumeralText(s: string, pre: string, sign: string, digits: string, post: string) {
    && All(pre, IsSpace) && IsSign(sign) && Numeral(digits) && All(post, IsSpace)
    && s == pre + sign + digits + post
  }

  /** The value of a signed digit run. */
  function SignedValue(sign: string, digits: string): int
    requires All(digits, IsDigit)
  {
    if sign == "-" then -(DigitsValue(digits) as int) else DigitsValue(digits) as int
  }

  /** `int()` succeeds exactly on padded, optionally signed digit runs,
      and then gives their value: anything else, such as `1.5` or `5d5`,
      is a `ValueError`. */
  lemma ParseIntAccepts(s: string)
    ensures ParseInt(s).Some? <==> exists pre, sign, digits, post :: NumeralText(s, pre, sign, digits, post)
    ensures forall pre, sign, digits, post | NumeralText(s, pre, sign, digits, post) ::
              ParseInt(s) == Some(SignedValue(sign, digits))
  {
    forall pre, sign, digits, post | NumeralText(s, pre, sign, digits, post)
      ensures ParseInt(s) == Some(SignedValue(sign, digits))
    {
      DigitsStripped(pre, sign, digits, post);
      SignedDigitsValue(s, sign, digits);
    }
    if ParseInt(s).Some? {
      ParsedNumeralText(s);
    }
  }

  /** A string `int()` reads splits into its padding, sign and digits. */
  lemma ParsedNumeralText(s: string)
    requires ParseInt(s).Some?
    ensures exists pre, sign, digits, post :: NumeralText(s, pre, sign, digits, post)
  {
    var pre, post := StripShape(s);
    var sign, digits := ParsedSplit(s);
    Assoc(pre, sign, digits);
    assert NumeralText(s, pre, sign, digits, post);
  }

  /** Whatever `Strip` removes is blank space at the two ends. */
  lemma StripShape(s: string) returns (pre: string, post: string)
    ensures All(pre, IsSpace) && All(post, IsSpace)
    ensures s == pre + Strip(s) + post
  {
    var p := TakeWhile(s, IsSpace);
    pre := p.0;
    var t := TrimEnd(p.1);
    assert t == Strip(s);
    post := p.1[|t|..];
    assert p.1 == t + post;
  }

  /** The stripped text `int()` reads is a sign and a digit run. */
  lemma ParsedSplit(s: string) returns (sign: string, digits: string)
    requires ParseInt(s).Some?
    ensures IsSign(sign) && Numeral(digits)
    ensures Strip(s) == sign + digits
  {
    var t := Strip(s);
    if t[0] == '-' || t[0] == '+' {
      sign, digits := [t[0]], t[1..];
    } else {
      sign, digits := [], t;
    }
  }

  lemma SignedDigitsValue(s: string, sign: string, digits: string)
    requires IsSign(sign) && Numeral(digits)
    requires Strip(s) == sign + digits
    ensures ParseInt(s) == Some(SignedValue(sign, digits))
  {
    var t := Strip(s);
    assert IsDigit(digits[0]);
    if sign == "" {
      assert t == digits;
      assert t[0] != '-' && t[0] != '+';
    } else {
      assert t[0] == sign[0];
      assert t[1..] == digits;
    }
  }

  lemma DigitsStripped(pre: string, sign: string, digits: string, post: string)
    requires All(pre, IsSpace) && All(post, IsSpace)
    requires IsSign(sign) && Numeral(digits)
    ensures Strip(pre + sign + digits + post) == sign + digits
  {
    var core := sign + digits;
    assert IsDigit(digits[0]) && IsDigit(digits[|digits| - 1]);
    assert core[|core| - 1] == digits[|digits| - 1];
    assert !IsSpace(core[0]) by {
      if sign == "" {
        assert core[0] == digits[0];
      } else {
        assert core[0] == sign[0];
      }
    }
    Assoc(pre, sign, digits);
    StripPadded(pre, core, post);
  }

  /** The union of what `f` gives for each line, accumulated in order as
      a loop over the lines does. */
  function Gather<T>(lines: seq<string>, f: string -> set<T>): set<T>
    decreases |lines|
  {
    if lines == [] then {} else Gather(lines[..|lines| - 1], f) + f(lines[|lines| - 1])
  }

  /** A value is gathered exactly when some line contributes it. */
  lemma {:induction false} GatherLines<T>(lines: seq<string>, f: string -> set<T>, x: T)
    ensures x in Gather(lines, f) <==> exists i | 0 <= i < |lines| :: x in f(lines[i])
    decreases |lines|
  {
    if lines != [] {
      var init := lines[..|lines| - 1];
      GatherLines(init, f, x);
      assert forall i | 0 <= i < |init| :: init[i] == lines[i];
    }
  }

  /** The singleton of a found value, or nothing. */
  function Found<T>(o: Option<T>): set<T> {
    match o
    case Some(v) => {v}
    case None => {}
  }

  /** `line.strip()` for every line. */
  function StripAll(lines: seq<string>): seq<string> {
    seq(|lines|, i requires 0 <= i < |lines| => Strip(lines[i]))
  }

  /** A dictionary filled by `d[k] = value(k)` for each key in turn; a
      repeated key is assigned the same value again. */
  function BuildMap<V>(keys: seq<string>, value: string -> V): (m: map<string, V>)
    ensures forall k :: k in m <==> k in keys
    ensures forall k | k in m :: m[k] == value(k)
    decreases |keys|
  {
    if keys == [] then map[]
    else
      var init := keys[..|keys| - 1];
      var m := BuildMap(init, value)[keys[|keys| - 1] := value(keys[|keys| - 1])];
      assert forall k | k in init :: k in keys;
      assert forall k | k in keys && k != keys[|keys| - 1] :: k in init by {
        forall k | k in keys && k != keys[|keys| - 1] ensures k in init {
          var i :| 0 <= i < |keys| && keys[i] == k;
          assert init[i] == k;
        }
      }
      m
  }
}
