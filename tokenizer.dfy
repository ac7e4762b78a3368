/** The text-to-integers part of `read_input`, which the three sorting
    scripts repeat word for word: strip the content, answer an empty list
    when nothing is left, otherwise turn every comma into a space, split on
    whitespace and convert each token with Python's `int`. The file itself
    (its path, existence check and decoding) is outside this module: the
    content arrives as a string. */
module Tokenizer {

  datatype Option<T> = None | Some(value: T)

  /** Why a conversion failed: `int` raises `ValueError` naming the first
      token that is not an integer literal. */
  datatype ParseError = InvalidLiteral(token: string)

  datatype Result<T> = Ok(value: T) | Failure(error: ParseError)

  /** The characters of Python's `str.isspace`: the ones `str.strip()`
      removes and `str.split()` splits on. */
  predicate IsSpace(c: char) {
    var n := c as int;
    9 <= n <= 13 || 28 <= n <= 32 || n == 0x85 || n == 0xA0 || n == 0x1680
    || 0x2000 <= n <= 0x200A || n == 0x2028 || n == 0x2029 || n == 0x202F
    || n == 0x205F || n == 0x3000
  }

  /** A character that separates two numbers in the content. */
  predicate IsSeparator(c: char) {
    c == ',' || IsSpace(c)
  }

  predicate AllSpace(s: string) {
    forall k :: 0 <= k < |s| ==> IsSpace(s[k])
  }

  /** A token as `split()` yields it: non-empty and free of whitespace. */
  predicate IsToken(t: string) {
    |t| > 0 && forall k :: 0 <= k < |t| ==> !IsSpace(t[k])
  }

  // ---------------------------------------------------------------------
  // strip, replace and split
  // ---------------------------------------------------------------------

  /** The number of whitespace characters that start `s`. */
  function LeadingSpaces(s: string): (n: nat)
    ensures n <= |s| && (n == |s| || !IsSpace(s[n]))
    ensures forall k :: 0 <= k < n ==> IsSpace(s[k])
  {
    if s != [] && IsSpace(s[0]) then 1 + LeadingSpaces(s[1..]) else 0
  }

  /** The number of whitespace characters that end `s`. */
  function TrailingSpaces(s: string): (n: nat)
    ensures n <= |s| && (n == |s| || !IsSpace(s[|s| - n - 1]))
    ensures forall k :: |s| - n <= k < |s| ==> IsSpace(s[k])
  {
    if s != [] && IsSpace(s[|s| - 1]) then 1 + TrailingSpaces(s[..|s| - 1]) else 0
  }

  /** `str.strip()`: the result neither starts nor ends with whitespace;
      `StripParts` shows that only whitespace was taken away. */
  function Strip(s: string): (r: string)
    ensures |r| <= |s|
    ensures r != [] ==> !IsSpace(r[0]) && !IsSpace(r[|r| - 1])
  {
    var rest := s[LeadingSpaces(s)..];
    rest[..|rest| - TrailingSpaces(rest)]
  }

  /** `s.replace(",", " ")`. */
  function ReplaceCommas(s: string): (r: string)
    ensures |r| == |s|
    ensures forall k :: 0 <= k < |s| ==> r[k] == if s[k] == ',' then ' ' else s[k]
  {
    if s == [] then [] else [if s[0] == ',' then ' ' else s[0]] + ReplaceCommas(s[1..])
  }

  /** The length of the run of non-whitespace characters that starts `s`. */
  function TokenLength(s: string): (n: nat)
    ensures n <= |s| && (n == |s| || IsSpace(s[n]))
    ensures forall k :: 0 <= k < n ==> !IsSpace(s[k])
  {
    if s == [] || IsSpace(s[0]) then 0 else 1 + TokenLength(s[1..])
  }

  /** `str.split()` with no argument: the maximal runs of non-whitespace
      characters, in order. */
  function Split(s: string): (r: seq<string>)
    ensures forall i :: 0 <= i < |r| ==> IsToken(r[i])
    decreases |s|
  {
    if s == [] then []
    else if IsSpace(s[0]) then Split(s[1..])
    else
      var n := TokenLength(s);
      [s[..n]] + Split(s[n..])
  }

  // ---------------------------------------------------------------------
  // int
  // ---------------------------------------------------------------------

  predicate IsDigit(c: char) {
    '0' <= c <= '9'
  }

  /** Decimal digits in which a single underscore may stand between two
      digits, as `int` accepts them. */
  predicate IsDigitRun(d: string) {
    |d| > 0 && IsDigit(d[0]) && IsDigit(d[|d| - 1])
    && (forall k :: 0 <= k < |d| ==> IsDigit(d[k]) || d[k] == '_')
    && (forall k :: 0 <= k < |d| - 1 && d[k] == '_' ==> IsDigit(d[k + 1]))
  }

  /** CPython's default limit on the number of digits `int` converts from,
      and `str` converts to, a decimal string (`sys.get_int_max_str_digits()`). */
  const MaxStrDigits := 4300

  /** The number of decimal digits in `d`, leading zeros included. */
  function DigitCount(d: string): nat {
    if d == [] then 0 else (if IsDigit(d[0]) then 1 else 0) + DigitCount(d[1..])
  }

  /** The value of a run of decimal digits, underscores skipped. */
  function DigitsValue(d: string): nat {
    if d == [] then 0
    else if IsDigit(d[|d| - 1]) then 10 * DigitsValue(d[..|d| - 1]) + (d[|d| - 1] as int - '0' as int)
    else DigitsValue(d[..|d| - 1])
  }

  /** `int(t)` in base 10 on a token: an optional sign, then a run of at
      most `MaxStrDigits` digits. A token that parses holds neither
      whitespace nor a comma. */
  function ParseInt(t: string): (r: Option<int>)
    ensures r.Some? ==> IsToken(t) && forall k :: 0 <= k < |t| ==> t[k] != ','
    ensures r.Some? ==> 0 < DigitCount(t) <= MaxStrDigits
  {
    if |t| > 0 && (t[0] == '+' || t[0] == '-') then
      var digits := t[1..];
      if IsDigitRun(digits) && DigitCount(digits) <= MaxStrDigits then
        assert forall k :: 1 <= k < |t| ==> t[k] == digits[k - 1];
        var v: int := DigitsValue(digits);
        Some(if t[0] == '-' then -v else v)
      else None
    else if IsDigitRun(t) && DigitCount(t) <= MaxStrDigits then Some(DigitsValue(t))
    else None
  }

  /** `[int(p) for p in parts]`: the values of the tokens, in order, or the
      error of the first token that does not parse. */
  function ParseAll(tokens: seq<string>): (r: Result<seq<int>>)
    ensures r.Ok? <==> forall i :: 0 <= i < |tokens| ==> ParseInt(tokens[i]).Some?
    ensures r.Ok? ==> |r.value| == |tokens|
    ensures r.Ok? ==> forall i :: 0 <= i < |tokens| ==> ParseInt(tokens[i]) == Some(r.value[i])
  {
    if tokens == [] then Ok([])
    else
      match ParseInt(tokens[0])
      case None => Failure(InvalidLiteral(tokens[0]))
      case Some(v) =>
        match ParseAll(tokens[1..])
        case Failure(e) => Failure(e)
        case Ok(vs) =>
          assert forall i :: 1 <= i < |tokens| ==> tokens[i] == tokens[1..][i - 1];
          Ok([v] + vs)
  }

  /** `read_input` after the file has been read into `content`. The strip
      and the early `[]` for empty content change nothing: reading is the
      conversion of the whitespace-split tokens of the content, commas made
      spaces. */
  function ReadInts(content: string): (r: Result<seq<int>>)
    ensures r == ParseAll(Split(ReplaceCommas(content)))
  {
    StripKeepsTokens(content);
    var stripped := Strip(content);
    if stripped == [] then Ok([])
    else ParseAll(Split(ReplaceCommas(stripped)))
  }

  // ---------------------------------------------------------------------
  // str, and the file format the list generator writes
  // ---------------------------------------------------------------------

  /** The number of decimal digits of `n`. */
  function DecimalLength(n: nat): nat {
    if n < 10 then 1 else 1 + DecimalLength(n / 10)
  }

  function Magnitude(x: int): nat {
    if x < 0 then -x else x
  }

  /** `str(n)` for a natural number: its decimal digits, most significant
      first, with no leading zero. */
  function NatToDecimal(n: nat): (d: string)
    ensures |d| == DecimalLength(n)
    ensures |d| > 0 && forall k :: 0 <= k < |d| ==> IsDigit(d[k])
    ensures |d| > 1 ==> d[0] != '0'
    ensures DigitsValue(d) == n
  {
    if n < 10 then [(48 + n) as char]
    else
      var prefix := NatToDecimal(n / 10);
      var d := prefix + [(48 + n % 10) as char];
      assert d[..|d| - 1] == prefix;
      d
  }

  /** `str(x)` for an integer, which CPython refuses beyond `MaxStrDigits`
      digits. `int` undoes it. */
  function ToDecimal(x: int): (d: string)
    requires DecimalLength(Magnitude(x)) <= MaxStrDigits
    ensures ParseInt(d) == Some(x)
  {
    var digits := NatToDecimal(Magnitude(x));
    AllDigitsCount(digits);
    assert IsDigitRun(digits);
    if x < 0 then
      var d := "-" + digits;
      assert d[1..] == digits;
      d
    else digits
  }

  /** The content of a list file: each number written with `str` and
      followed by a newline. Reading it gives back the numbers, in order. */
  function Format(xs: seq<int>): (r: string)
    requires forall i :: 0 <= i < |xs| ==> DecimalLength(Magnitude(xs[i])) <= MaxStrDigits
    ensures ReadInts(r) == Ok(xs)
  {
    if xs == [] then []
    else
      var rest := Format(xs[1..]);
      ReadLine(xs[0], rest);
      assert [xs[0]] + xs[1..] == xs;
      ToDecimal(xs[0]) + "\n" + rest
  }

  /** Combines the readings of two pieces of content separated by a
      separator: the first error wins, otherwise the values are joined. */
  function Both(a: Result<seq<int>>, b: Result<seq<int>>): Result<seq<int>> {
    if a.Failure? then a
    else if b.Failure? then b
    else Ok(a.value + b.value)
  }

  // ---------------------------------------------------------------------
  // Lemmas
  // ---------------------------------------------------------------------

  /** A token read to its end: `split()` gives the token itself. */
  lemma {:induction false} SplitToken(t: string)
    requires IsToken(t)
    ensures Split(t) == [t]
  {
    assert TokenLength(t) == |t|;
    assert t[|t|..] == [];
    assert t[..|t|] == t;
  }

  /** Whitespace alone gives no token. */
  lemma {:induction false} SplitBlank(s: string)
    ensures Split(s) == [] <==> AllSpace(s)
    decreases |s|
  {
    if s != [] {
      if IsSpace(s[0]) {
        SplitBlank(s[1..]);
        if AllSpace(s[1..]) {
          forall k | 0 <= k < |s| ensures IsSpace(s[k]) {
            if k > 0 {
              assert s[k] == s[1..][k - 1];
            }
          }
        } else {
          var k :| 0 <= k < |s[1..]| && !IsSpace(s[1..][k]);
          assert s[k + 1] == s[1..][k];
        }
      }
    }
  }

  /** A token not followed by whitespace in `x` keeps its length when more
      text follows; neither does it grow past a whitespace character. */
  lemma {:induction false} TokenLengthAppend(x: string, z: string)
    requires TokenLength(x) < |x| || (z != [] && IsSpace(z[0]))
    ensures TokenLength(x + z) == TokenLength(x)
    decreases |x|
  {
    if x != [] && !IsSpace(x[0]) {
      assert (x + z)[1..] == x[1..] + z;
      TokenLengthAppend(x[1..], z);
    } else if x == [] {
      assert x + z == z;
    }
  }

  /** The separator law of `split()`: a whitespace character splits the
      text around it into independent halves. */
  lemma {:induction false} SplitAround(x: string, c: char, y: string)
    requires IsSpace(c)
    ensures Split(x + [c] + y) == Split(x) + Split(y)
    decreases |x|
  {
    var s := x + [c] + y;
    if x == [] {
      assert s == [c] + y;
      assert s[1..] == y;
    } else if IsSpace(x[0]) {
      assert s[1..] == x[1..] + [c] + y;
      SplitAround(x[1..], c, y);
    } else {
      var n := TokenLength(x);
      TokenLengthAppend(x, [c] + y);
      assert s == x + ([c] + y);
      assert s[..n] == x[..n];
      assert s[n..] == x[n..] + [c] + y;
      SplitAround(x[n..], c, y);
      assert Split(s) == [x[..n]] + (Split(x[n..]) + Split(y));
      assert [x[..n]] + (Split(x[n..]) + Split(y)) == ([x[..n]] + Split(x[n..])) + Split(y);
    }
  }

  /** Leading whitespace gives no token. */
  lemma {:induction false} SplitLeadingSpace(w: string, s: string)
    requires AllSpace(w)
    ensures Split(w + s) == Split(s)
    decreases |w|
  {
    if w != [] {
      assert (w + s)[1..] == w[1..] + s;
      assert AllSpace(w[1..]) by {
        forall k | 0 <= k < |w[1..]| ensures IsSpace(w[1..][k]) {
          assert w[1..][k] == w[k + 1];
        }
      }
      SplitLeadingSpace(w[1..], s);
    } else {
      assert w + s == s;
    }
  }

  /** Trailing whitespace gives no token. */
  lemma {:induction false} SplitTrailingSpace(s: string, w: string)
    requires AllSpace(w)
    ensures Split(s + w) == Split(s)
  {
    if w == [] {
      assert s + w == s;
    } else {
      assert s + w == s + [w[0]] + w[1..];
      SplitAround(s, w[0], w[1..]);
      assert AllSpace(w[1..]) by {
        forall k | 0 <= k < |w[1..]| ensures IsSpace(w[1..][k]) {
          assert w[1..][k] == w[k + 1];
        }
      }
      SplitBlank(w[1..]);
      assert Split(s) + [] == Split(s);
    }
  }

  /** Replacing commas works character by character. */
  lemma {:induction false} ReplaceCommasAppend(a: string, b: string)
    ensures ReplaceCommas(a + b) == ReplaceCommas(a) + ReplaceCommas(b)
    decreases |a|
  {
    if a == [] {
      assert a + b == b;
      assert [] + ReplaceCommas(b) == ReplaceCommas(b);
    } else {
      var c := if a[0] == ',' then ' ' else a[0];
      assert (a + b)[0] == a[0];
      assert (a + b)[1..] == a[1..] + b;
      ReplaceCommasAppend(a[1..], b);
      assert [c] + (ReplaceCommas(a[1..]) + ReplaceCommas(b)) == ([c] + ReplaceCommas(a[1..])) + ReplaceCommas(b);
    }
  }

  /** Text without commas is left as it is. */
  lemma ReplaceCommasNone(s: string)
    requires forall k :: 0 <= k < |s| ==> s[k] != ','
    ensures ReplaceCommas(s) == s
  {
  }

  /** A sequence is its three slices at `i` and `j` put back together. */
  lemma ThreeParts(s: string, i: int, j: int)
    requires 0 <= i <= j <= |s|
    ensures s == s[..i] + s[i..j] + s[j..]
  {
  }

  /** Whitespace holds no comma to replace. */
  lemma ReplaceCommasBlank(w: string)
    requires AllSpace(w)
    ensures ReplaceCommas(w) == w
  {
  }

  /** Whitespace around the content gives no token, commas made spaces or not. */
  lemma SurroundedBySpace(front: string, m: string, back: string)
    requires AllSpace(front) && AllSpace(back)
    ensures Split(ReplaceCommas(front + m + back)) == Split(ReplaceCommas(m))
  {
    ReplaceCommasAppend(front + m, back);
    ReplaceCommasAppend(front, m);
    ReplaceCommasBlank(front);
    ReplaceCommasBlank(back);
    SplitTrailingSpace(front + ReplaceCommas(m), back);
    SplitLeadingSpace(front, ReplaceCommas(m));
  }

  /** The content is its stripped form with whitespace on either side. */
  lemma StripParts(s: string)
    ensures LeadingSpaces(s) + |Strip(s)| <= |s|
    ensures s == s[..LeadingSpaces(s)] + Strip(s) + s[LeadingSpaces(s) + |Strip(s)|..]
    ensures AllSpace(s[..LeadingSpaces(s)]) && AllSpace(s[LeadingSpaces(s) + |Strip(s)|..])
  {
    var lead := LeadingSpaces(s);
    var rest := s[lead..];
    var r := Strip(s);
    assert r == s[lead..lead + |r|];
    assert s[lead + |r|..] == rest[|r|..];
    ThreeParts(s, lead, lead + |r|);
  }

  /** Stripping the content changes none of its tokens, and content that
      strips to nothing has none. */
  lemma StripKeepsTokens(content: string)
    ensures Split(ReplaceCommas(Strip(content))) == Split(ReplaceCommas(content))
    ensures Strip(content) == [] ==> Split(ReplaceCommas(content)) == []
  {
    var r := Strip(content);
    StripParts(content);
    SurroundedBySpace(content[..LeadingSpaces(content)], r, content[LeadingSpaces(content) + |r|..]);
    if r == [] {
      assert ReplaceCommas(r) == [];
    }
  }

  /** Content reads as no numbers exactly when every character of it is a
      comma or whitespace. */
  lemma ReadIntsEmpty(content: string)
    ensures ReadInts(content) == Ok([]) <==> forall k :: 0 <= k < |content| ==> IsSeparator(content[k])
  {
    var replaced := ReplaceCommas(content);
    SplitBlank(replaced);
    if forall k :: 0 <= k < |content| ==> IsSeparator(content[k]) {
      assert AllSpace(replaced);
    } else {
      var k :| 0 <= k < |content| && !IsSeparator(content[k]);
      assert !IsSpace(replaced[k]);
    }
  }

  /** Converting the tokens of two pieces one after the other. */
  lemma {:induction false} ParseAllAppend(ts: seq<string>, us: seq<string>)
    ensures ParseAll(ts + us) == Both(ParseAll(ts), ParseAll(us))
    decreases |ts|
  {
    if ts == [] {
      assert ts + us == us;
      if ParseAll(us).Ok? {
        assert [] + ParseAll(us).value == ParseAll(us).value;
      }
    } else {
      assert (ts + us)[0] == ts[0];
      assert (ts + us)[1..] == ts[1..] + us;
      ParseAllAppend(ts[1..], us);
      if ParseInt(ts[0]).Some? && ParseAll(ts[1..]).Ok? && ParseAll(us).Ok? {
        var v := ParseInt(ts[0]).value;
        assert [v] + (ParseAll(ts[1..]).value + ParseAll(us).value)
            == [v] + ParseAll(ts[1..]).value + ParseAll(us).value;
      }
    }
  }

  /** A separator, comma or whitespace, splits the content into two pieces
      read independently; their numbers come out in content order and the
      first bad token, counted from the start, is the one reported. */
  lemma ReadSeparated(x: string, c: char, y: string)
    requires IsSeparator(c)
    ensures ReadInts(x + [c] + y) == Both(ReadInts(x), ReadInts(y))
  {
    var c' := if c == ',' then ' ' else c;
    ReplaceCommasAppend(x + [c], y);
    ReplaceCommasAppend(x, [c]);
    assert ReplaceCommas([c]) == [c'];
    SplitAround(ReplaceCommas(x), c', ReplaceCommas(y));
    ParseAllAppend(Split(ReplaceCommas(x)), Split(ReplaceCommas(y)));
  }

  /** Commas and whitespace are interchangeable as separators. */
  lemma SeparatorsInterchangeable(x: string, c: char, d: char, y: string)
    requires IsSeparator(c) && IsSeparator(d)
    ensures ReadInts(x + [c] + y) == ReadInts(x + [d] + y)
  {
    ReadSeparated(x, c, y);
    ReadSeparated(x, d, y);
  }

  /** The first token that does not parse is the one the error names. */
  lemma {:induction false} ParseAllFirstInvalid(tokens: seq<string>, i: int)
    requires 0 <= i < |tokens| && ParseInt(tokens[i]).None?
    requires forall k :: 0 <= k < i ==> ParseInt(tokens[k]).Some?
    ensures ParseAll(tokens) == Failure(InvalidLiteral(tokens[i]))
    decreases i
  {
    if i > 0 {
      assert tokens[1..][i - 1] == tokens[i];
      ParseAllFirstInvalid(tokens[1..], i - 1);
    }
  }

  /** A string of digits has as many digits as characters. */
  lemma {:induction false} AllDigitsCount(d: string)
    requires forall k :: 0 <= k < |d| ==> IsDigit(d[k])
    ensures DigitCount(d) == |d|
  {
    if d != [] {
      AllDigitsCount(d[1..]);
    }
  }

  /** A token that parses, read alone, gives its value. */
  lemma ReadToken(t: string)
    requires ParseInt(t).Some?
    ensures ReadInts(t) == Ok([ParseInt(t).value])
  {
    ReplaceCommasNone(t);
    SplitToken(t);
    assert [t][1..] == [];
    assert [ParseInt(t).value] + [] == [ParseInt(t).value];
  }

  /** One line the list generator writes, followed by more content. */
  lemma ReadLine(x: int, rest: string)
    requires DecimalLength(Magnitude(x)) <= MaxStrDigits
    ensures ReadInts(ToDecimal(x) + "\n" + rest) == Both(Ok([x]), ReadInts(rest))
  {
    assert IsSeparator('\n');
    ReadToken(ToDecimal(x));
    ReadSeparated(ToDecimal(x), '\n', rest);
  }

  /** A token that does not parse, read alone, is reported. */
  lemma ReadBadToken(t: string)
    requires IsToken(t) && forall k :: 0 <= k < |t| ==> t[k] != ','
    requires ParseInt(t).None?
    ensures ReadInts(t) == Failure(InvalidLiteral(t))
  {
    ReplaceCommasNone(t);
    SplitToken(t);
  }

  /** Appending a character to a run of digits. */
  lemma DigitsValueSnoc(d: string, c: char)
    ensures DigitsValue(d + [c]) == if IsDigit(c) then 10 * DigitsValue(d) + (c as int - '0' as int) else DigitsValue(d)
  {
    assert (d + [c])[..|d|] == d;
  }

  /** `int` on sample tokens: underscores between digits and a sign are
      accepted. */
  lemma ParseIntAccepts()
    ensures ParseInt("1_000") == Some(1000) && ParseInt("-12") == Some(-12)
  {
    DigitsValueSnoc("", '1');
    DigitsValueSnoc("1", '_');
    DigitsValueSnoc("1_", '0');
    DigitsValueSnoc("1_0", '0');
    DigitsValueSnoc("1_00", '0');
    DigitsValueSnoc("1", '2');
    assert "1_000" == "1_00" + ['0'] && "1_00" == "1_0" + ['0'] && "1_0" == "1_" + ['0'];
    assert "1_" == "1" + ['_'] && "1" == "" + ['1'] && "12" == "1" + ['2'];
    assert IsDigitRun("1_000") && IsDigitRun("12");
    assert "-12"[1..] == "12";
  }

  /** `int` on sample tokens: a doubled, leading or trailing underscore, a
      lone sign, the empty token and a decimal point are refused. */
  lemma ParseIntRefuses()
    ensures ParseInt("1__0").None? && ParseInt("_1").None? && ParseInt("1_").None?
    ensures ParseInt("-").None? && ParseInt("").None? && ParseInt("1.5").None?
  {
    assert !IsDigitRun("1__0") by { assert "1__0"[1] == '_' && "1__0"[2] == '_'; }
  }
}
