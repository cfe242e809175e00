/** The two pieces of `java.lang` text handling the transform serialisation
    relies on: `String.split("\\s+")` and the decimal `int` conversions
    `Integer.toString` (what `StringBuilder.append(int)` writes) and
    `Integer.parseInt`. */
module JavaText {
  import opened Wrappers
  import opened JavaInt

  /** The characters of the regular-expression class `\s`: space, tab,
      line feed, vertical tab, form feed and carriage return. */
  predicate IsWhitespace(c: char)
  {
    c == ' ' || c == '\t' || c == '\n' || c == '\U{0B}' || c == '\U{0C}' || c == '\r'
  }

  predicate NoWhitespace(s: string)
  {
    forall k :: 0 <= k < |s| ==> !IsWhitespace(s[k])
  }

  /** The index of the first whitespace character at or after `from`, or
      `|s|` when there is none. */
  function NextWhitespace(s: string, from: nat): (r: nat)
    requires from <= |s|
    ensures from <= r <= |s|
    ensures r < |s| ==> IsWhitespace(s[r])
    ensures forall k :: from <= k < r ==> !IsWhitespace(s[k])
    decreases |s| - from
  {
    if from == |s| || IsWhitespace(s[from]) then from else NextWhitespace(s, from + 1)
  }

  /** The end of the whitespace run that starts at `from`. */
  function RunEnd(s: string, from: nat): (r: nat)
    requires from <= |s|
    ensures from <= r <= |s|
    ensures r < |s| ==> !IsWhitespace(s[r])
    ensures forall k :: from <= k < r ==> IsWhitespace(s[k])
    decreases |s| - from
  {
    if from == |s| || !IsWhitespace(s[from]) then from else RunEnd(s, from + 1)
  }

  /** The substrings between the matches of `\s+`, each match a maximal
      run of whitespace; a string starting with whitespace gives a leading
      empty piece. */
  function Pieces(s: string): (r: seq<string>)
    ensures |r| >= 1
    decreases |s|
  {
    var i := NextWhitespace(s, 0);
    if i == |s| then [s]
    else [s[..i]] + Pieces(s[RunEnd(s, i)..])
  }

  /** What `split` does with the pieces: trailing empty strings are
      removed. */
  function DropTrailingEmpty(ps: seq<string>): (r: seq<string>)
    ensures |r| <= |ps| && r == ps[..|r|]
    ensures |r| > 0 ==> r[|r| - 1] != ""
    ensures forall k :: |r| <= k < |ps| ==> ps[k] == ""
  {
    if |ps| == 0 || ps[|ps| - 1] != "" then ps
    else DropTrailingEmpty(ps[..|ps| - 1])
  }

  /** `s.split("\\s+")`: a string without a match is returned whole, even
      when it is empty; otherwise the pieces without the trailing empty
      ones. */
  function Split(s: string): seq<string>
  {
    if NoWhitespace(s) then [s] else DropTrailingEmpty(Pieces(s))
  }

  /** A token that `split` returns unchanged: non-empty and free of
      whitespace. */
  predicate IsToken(t: string)
  {
    |t| > 0 && NoWhitespace(t)
  }

  /** The tokens written one after another with a single space between
      them, as the `append(' ').append(...)` chains do. */
  function JoinSpaced(tokens: seq<string>): (r: string)
    requires |tokens| >= 1
  {
    if |tokens| == 1 then tokens[0] else tokens[0] + " " + JoinSpaced(tokens[1..])
  }

  /** Appending a space and a token to the layout lays out one more
      token. */
  lemma {:induction false} JoinSpacedSnoc(tokens: seq<string>, t: string)
    requires |tokens| >= 1
    ensures JoinSpaced(tokens + [t]) == JoinSpaced(tokens) + " " + t
    decreases |tokens|
  {
    var all := tokens + [t];
    if |tokens| == 1 {
      assert all[1..] == [t];
    } else {
      assert all[1..] == tokens[1..] + [t];
      JoinSpacedSnoc(tokens[1..], t);
      var head, rest := tokens[0] + " ", JoinSpaced(tokens[1..]);
      assert JoinSpaced(all) == head + (rest + " " + t);
      assert JoinSpaced(tokens) == head + rest;
      assert head + (rest + " " + t) == (head + rest) + " " + t;
    }
  }

  lemma JoinSpacedStartsWithToken(tokens: seq<string>)
    requires |tokens| >= 1 && IsToken(tokens[0])
    ensures |JoinSpaced(tokens)| > 0 && !IsWhitespace(JoinSpaced(tokens)[0])
  {
  }

  /** Splitting a token followed by a space and more text gives the token
      and the pieces of the rest. */
  lemma PiecesAfterToken(t: string, rest: string)
    requires IsToken(t) && |rest| > 0 && !IsWhitespace(rest[0])
    ensures Pieces(t + " " + rest) == [t] + Pieces(rest)
  {
    var s := t + " " + rest;
    assert forall k :: 0 <= k < |t| ==> s[k] == t[k];
    assert NextWhitespace(s, 0) == |t| by {
      NextWhitespaceFrom(s, 0, |t|);
    }
    assert RunEnd(s, |t|) == |t| + 1 by {
      assert RunEnd(s, |t| + 1) == |t| + 1;
    }
    assert s[..|t|] == t;
    assert s[|t| + 1..] == rest;
  }

  /** `NextWhitespace` finds the first whitespace character. */
  lemma NextWhitespaceFrom(s: string, from: nat, i: nat)
    requires from <= i < |s| && IsWhitespace(s[i])
    requires forall k :: from <= k < i ==> !IsWhitespace(s[k])
    ensures NextWhitespace(s, from) == i
    decreases i - from
  {
    if from < i {
      NextWhitespaceFrom(s, from + 1, i);
    }
  }

  lemma NoWhitespacePieces(s: string)
    requires NoWhitespace(s)
    ensures Pieces(s) == [s]
  {
  }

  /** The pieces of space-joined tokens are the tokens. */
  lemma {:induction false} PiecesJoinSpaced(tokens: seq<string>)
    requires |tokens| >= 1 && forall k :: 0 <= k < |tokens| ==> IsToken(tokens[k])
    ensures Pieces(JoinSpaced(tokens)) == tokens
    decreases |tokens|
  {
    if |tokens| == 1 {
      NoWhitespacePieces(tokens[0]);
    } else {
      var rest := tokens[1..];
      JoinSpacedStartsWithToken(rest);
      PiecesAfterToken(tokens[0], JoinSpaced(rest));
      PiecesJoinSpaced(rest);
      assert tokens == [tokens[0]] + rest;
    }
  }

  /** `split` undoes the space-joined layout: the whitespace-token layout
      reads back exactly the tokens that were written. */
  lemma SplitJoinSpaced(tokens: seq<string>)
    requires |tokens| >= 1 && forall k :: 0 <= k < |tokens| ==> IsToken(tokens[k])
    ensures Split(JoinSpaced(tokens)) == tokens
  {
    PiecesJoinSpaced(tokens);
    var s := JoinSpaced(tokens);
    if |tokens| == 1 {
    } else {
      assert s == tokens[0] + " " + JoinSpaced(tokens[1..]);
      assert s[|tokens[0]|] == ' ';
      assert !NoWhitespace(s);
      assert DropTrailingEmpty(tokens) == tokens;
    }
  }

  // ---------------------------------------------------------------------
  // Decimal integers

  function DigitChar(d: int): char
    requires 0 <= d < 10
  {
    "0123456789"[d]
  }

  predicate IsDigit(c: char) { '0' <= c <= '9' }

  function DigitValue(c: char): int
    requires IsDigit(c)
  {
    c as int - '0' as int
  }

  /** The decimal digits of `n`, most significant first, without leading
      zeros. */
  function Digits(n: nat): (r: string)
    ensures |r| > 0 && forall k :: 0 <= k < |r| ==> IsDigit(r[k])
  {
    if n < 10 then [DigitChar(n)] else Digits(n / 10) + [DigitChar(n % 10)]
  }

  /** `Integer.toString(n)`: a minus sign for negative values, then the
      digits of the magnitude. */
  function IntToString(n: int): (r: string)
    ensures IsToken(r)
  {
    var s := if n < 0 then "-" + Digits(-n) else Digits(n);
    assert forall k :: 0 <= k < |s| ==> s[k] == '-' || IsDigit(s[k]);
    s
  }

  /** The value of a string of decimal digits. */
  function DigitsValue(s: string): (r: nat)
    requires forall k :: 0 <= k < |s| ==> IsDigit(s[k])
  {
    if |s| == 0 then 0 else 10 * DigitsValue(s[..|s| - 1]) + DigitValue(s[|s| - 1])
  }

  lemma {:induction false} DigitsValueOfDigits(n: nat)
    ensures DigitsValue(Digits(n)) == n
  {
    var s := Digits(n);
    if n >= 10 {
      assert s[..|s| - 1] == Digits(n / 10);
      DigitsValueOfDigits(n / 10);
    }
  }

  /** The message of the `NumberFormatException` that `parseInt` throws. */
  function ForInputString(s: string): string
  {
    "For input string: \"" + s + "\""
  }

  /** `Integer.parseInt(s)`: an optional sign, then at least one decimal
      digit, with a value in the `int` range; anything else throws
      `NumberFormatException`. */
  function ParseInt(s: string): (r: Result<int, JavaException>)
    ensures r.Ok? ==> IsInt(r.value)
    ensures r.Err? ==> r.error == NumberFormat(ForInputString(s))
  {
    var signed := |s| > 0 && (s[0] == '-' || s[0] == '+');
    var body := if signed then s[1..] else s;
    if |body| == 0 || exists k :: 0 <= k < |body| && !IsDigit(body[k]) then Err(NumberFormat(ForInputString(s)))
    else
      var v: int := if signed && s[0] == '-' then -(DigitsValue(body) as int) else DigitsValue(body) as int;
      if IsInt(v) then Ok(v) else Err(NumberFormat(ForInputString(s)))
  }

  /** `parseInt` reads back what `toString` writes, for every `int`. */
  lemma ParseIntToString(n: int)
    requires IsInt(n)
    ensures ParseInt(IntToString(n)) == Ok(n)
  {
    var s := IntToString(n);
    var m: nat := if n < 0 then -n else n;
    var d := Digits(m);
    DigitsValueOfDigits(m);
    if n < 0 {
      assert s == "-" + d;
      assert s[1..] == d;
      assert ParseInt(s) == Ok(-(DigitsValue(d) as int));
    } else {
      assert s == d;
      assert IsDigit(s[0]);
      assert ParseInt(s) == Ok(DigitsValue(d) as int);
    }
  }
}
