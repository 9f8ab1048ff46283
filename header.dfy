/**
 * create_header and parse_header (huffman_coding.py:141-154, 217-233): the
 * frequency table written as the text "i f i f ..." of its positive
 * entries, and read back with Python's `str.split` and `int`.
 */
module Header {
  import opened Wrappers

  // ---------------------------------------------------------------------
  // Decimal numerals, as `'{}'.format(n)` writes them and `int` reads them
  // ---------------------------------------------------------------------

  predicate IsDigit(c: char) {
    '0' <= c <= '9'
  }

  function DigitChar(d: nat): (c: char)
    requires d < 10
    ensures IsDigit(c)
  {
    ['0', '1', '2', '3', '4', '5', '6', '7', '8', '9'][d]
  }

  function DigitValue(c: char): (d: nat)
    requires IsDigit(c)
    ensures d < 10
  {
    (c as int - '0' as int) as nat
  }

  /** The decimal numeral of n, without leading zeros. */
  function NatToString(n: nat): (s: string)
    decreases n
  {
    if n < 10 then [DigitChar(n)] else NatToString(n / 10) + [DigitChar(n % 10)]
  }

  /**
   * The digit runs `int` accepts: decimal digits, where a single underscore
   * may separate two digits.
   */
  predicate ValidDigits(s: string) {
    && |s| > 0
    && IsDigit(s[0]) && IsDigit(s[|s| - 1])
    && (forall i :: 0 <= i < |s| ==> IsDigit(s[i]) || s[i] == '_')
    && (forall i :: 0 <= i < |s| - 1 ==> s[i] == '_' ==> IsDigit(s[i + 1]))
  }

  /** The value of a digit run, underscores skipped. */
  function DigitsValue(s: string): nat
    requires forall i :: 0 <= i < |s| ==> IsDigit(s[i]) || s[i] == '_'
  {
    if |s| == 0 then 0
    else if s[|s| - 1] == '_' then DigitsValue(s[..|s| - 1])
    else DigitsValue(s[..|s| - 1]) * 10 + DigitValue(s[|s| - 1])
  }

  /** `int(token)` on a token without white space: an optional sign, then a digit run. */
  function ParseInt(token: string): Option<int> {
    if |token| > 0 && (token[0] == '+' || token[0] == '-') then
      var body := token[1..];
      if ValidDigits(body) then
        var v: int := DigitsValue(body);
        Some(if token[0] == '-' then -v else v)
      else None
    else if ValidDigits(token) then Some(DigitsValue(token))
    else None
  }

  lemma {:induction false} NatToStringDigits(n: nat)
    ensures |NatToString(n)| > 0
    ensures forall i :: 0 <= i < |NatToString(n)| ==> IsDigit(NatToString(n)[i])
    decreases n
  {
    if n >= 10 {
      NatToStringDigits(n / 10);
    }
  }

  lemma {:induction false} NatToStringValue(n: nat)
    ensures forall i :: 0 <= i < |NatToString(n)| ==> IsDigit(NatToString(n)[i])
    ensures DigitsValue(NatToString(n)) == n
    decreases n
  {
    NatToStringDigits(n);
    if n >= 10 {
      var s := NatToString(n);
      NatToStringValue(n / 10);
      assert s[..|s| - 1] == NatToString(n / 10);
      assert DigitValue(DigitChar(n % 10)) == n % 10;
    } else {
      assert DigitValue(DigitChar(n)) == n;
    }
  }

  /** `int` reads back every numeral the header writes. */
  lemma ParseNatToString(n: nat)
    ensures ParseInt(NatToString(n)) == Some(n)
  {
    NatToStringValue(n);
    NatToStringDigits(n);
    var s := NatToString(n);
    assert IsDigit(s[0]);
  }

  // ---------------------------------------------------------------------
  // str.split() with no argument
  // ---------------------------------------------------------------------

  /** The characters Python's `str.split()` treats as white space. */
  predicate IsSpace(c: char) {
    || ('\U{9}' <= c <= '\U{d}') || ('\U{1c}' <= c <= '\U{20}')
    || c == '\U{85}' || c == '\U{a0}' || c == '\U{1680}'
    || ('\U{2000}' <= c <= '\U{200a}') || c == '\U{2028}' || c == '\U{2029}'
    || c == '\U{202f}' || c == '\U{205f}' || c == '\U{3000}'
  }

  /**
   * Split `s` at runs of white space, `cur` being the part of a token read
   * so far; empty tokens are never produced.
   */
  function SplitFrom(s: string, cur: string): seq<string>
    decreases |s|
  {
    if |s| == 0 then (if cur == "" then [] else [cur])
    else if IsSpace(s[0]) then (if cur == "" then SplitFrom(s[1..], "") else [cur] + SplitFrom(s[1..], ""))
    else SplitFrom(s[1..], cur + [s[0]])
  }

  function Split(s: string): seq<string> {
    SplitFrom(s, "")
  }

  predicate IsToken(t: string) {
    |t| > 0 && forall i :: 0 <= i < |t| ==> !IsSpace(t[i])
  }

  lemma {:induction false} SplitToken(t: string, rest: string, cur: string)
    requires forall i :: 0 <= i < |t| ==> !IsSpace(t[i])
    ensures SplitFrom(t + rest, cur) == SplitFrom(rest, cur + t)
    decreases |t|
  {
    if |t| == 0 {
      assert t + rest == rest && cur + t == cur;
    } else {
      assert (t + rest)[1..] == t[1..] + rest;
      SplitToken(t[1..], rest, cur + [t[0]]);
      assert cur + [t[0]] + t[1..] == cur + t;
    }
  }

  lemma {:induction false} SplitAtSpace(x: string, y: string, cur: string)
    ensures SplitFrom(x + " " + y, cur) == SplitFrom(x, cur) + SplitFrom(y, "")
    decreases |x|
  {
    if |x| == 0 {
      assert x + " " + y == " " + y;
      assert (" " + y)[1..] == y;
    } else {
      assert (x + " " + y)[1..] == x[1..] + " " + y;
      if IsSpace(x[0]) {
        SplitAtSpace(x[1..], y, "");
      } else {
        SplitAtSpace(x[1..], y, cur + [x[0]]);
      }
    }
  }

  // ---------------------------------------------------------------------
  // create_header
  // ---------------------------------------------------------------------

  /** The numerals of the positive entries below k: index, then frequency. */
  function Tokens(freqs: seq<int>, k: nat): seq<string>
    requires k <= |freqs|
  {
    if k == 0 then []
    else Tokens(freqs, k - 1) + (if freqs[k - 1] > 0 then [NatToString(k - 1), NatToString(freqs[k - 1])] else [])
  }

  /** Each token followed by one space. */
  function SpaceAfterEach(ts: seq<string>): string {
    if |ts| == 0 then "" else SpaceAfterEach(ts[..|ts| - 1]) + ts[|ts| - 1] + " "
  }

  /** Python's `s[:-1]`. */
  function DropLast(s: string): string {
    if |s| == 0 then s else s[..|s| - 1]
  }

  /** The header of a frequency table. */
  function HeaderOf(freqs: seq<int>): string {
    DropLast(SpaceAfterEach(Tokens(freqs, |freqs|)))
  }

  /** create_header: one "i f " per positive entry, then the last space dropped. */
  method CreateHeader(listOfFreqs: seq<int>) returns (outStr: string)
    ensures outStr == HeaderOf(listOfFreqs)
  {
    outStr := "";
    for each := 0 to |listOfFreqs|
      invariant outStr == SpaceAfterEach(Tokens(listOfFreqs, each))
    {
      if listOfFreqs[each] > 0 {
        var ts := Tokens(listOfFreqs, each);
        var a, b := NatToString(each), NatToString(listOfFreqs[each]);
        assert Tokens(listOfFreqs, each + 1) == ts + [a, b];
        assert (ts + [a, b])[..|ts| + 1] == ts + [a];
        assert (ts + [a])[..|ts|] == ts;
        assert SpaceAfterEach(ts + [a, b]) == SpaceAfterEach(ts) + a + " " + b + " ";
        outStr := outStr + a + " " + b + " ";
      } else {
        assert Tokens(listOfFreqs, each + 1) == Tokens(listOfFreqs, each) + [];
        assert Tokens(listOfFreqs, each) + [] == Tokens(listOfFreqs, each);
      }
    }
    outStr := DropLast(outStr);
  }

  lemma {:induction false} TokensAreTokens(freqs: seq<int>, k: nat)
    requires k <= |freqs|
    ensures |Tokens(freqs, k)| % 2 == 0
    ensures forall i :: 0 <= i < |Tokens(freqs, k)| ==> IsToken(Tokens(freqs, k)[i])
  {
    if k > 0 {
      TokensAreTokens(freqs, k - 1);
      NatToStringDigits(k - 1);
      if freqs[k - 1] > 0 {
        NatToStringDigits(freqs[k - 1]);
      }
    }
  }

  lemma {:induction false} SplitSpaced(ts: seq<string>)
    requires forall i :: 0 <= i < |ts| ==> IsToken(ts[i])
    ensures Split(DropLast(SpaceAfterEach(ts))) == ts
    decreases |ts|
  {
    if |ts| > 0 {
      var init, t := ts[..|ts| - 1], ts[|ts| - 1];
      SplitSpaced(init);
      var j := SpaceAfterEach(init);
      assert DropLast(SpaceAfterEach(ts)) == j + t;
      SplitToken(t, "", "");
      assert t + "" == t && "" + t == t;
      if |init| == 0 {
        assert j + t == t;
      } else {
        assert j == DropLast(j) + " ";
        assert j + t == DropLast(j) + " " + t;
        SplitAtSpace(DropLast(j), t, "");
      }
    }
  }

  /** The header splits into exactly the numerals create_header wrote. */
  lemma SplitHeader(freqs: seq<int>)
    ensures Split(HeaderOf(freqs)) == Tokens(freqs, |freqs|)
  {
    TokensAreTokens(freqs, |freqs|);
    SplitSpaced(Tokens(freqs, |freqs|));
  }

  // ---------------------------------------------------------------------
  // parse_header
  // ---------------------------------------------------------------------

  /** The exceptions parse_header can raise. */
  datatype HeaderError =
    | IndexError  // a missing frequency token, or a symbol outside -256..255
    | ValueError  // a token `int` does not accept

  /** The list slot Python's indexing picks for a symbol in -256..255. */
  function Slot(c: int): (i: nat)
    requires -256 <= c < 256
    ensures i < 256 && i % 256 == c % 256
  {
    if c < 0 then c + 256 else c
  }

  /**
   * The parse loop from the token pair at the front of `tokens` on, with
   * the list so far: the frequency token is fetched and converted before
   * the symbol token, as in the source's assignment statement.
   */
  function Fill(tokens: seq<string>, freqs: seq<int>): (r: Result<seq<int>, HeaderError>)
    requires |freqs| == 256
    ensures r.Ok? ==> |r.value| == 256
    decreases |tokens|
  {
    if |tokens| == 0 then Ok(freqs)
    else if |tokens| == 1 then Err(IndexError)
    else match ParseInt(tokens[1])
      case None => Err(ValueError)
      case Some(v) =>
        match ParseInt(tokens[0])
        case None => Err(ValueError)
        case Some(c) =>
          if c < -256 || c >= 256 then Err(IndexError)
          else Fill(tokens[2..], freqs[Slot(c) := v])
  }

  /** What parse_header returns or raises. */
  function ParseHeaderSpec(headerString: string): Result<seq<int>, HeaderError> {
    Fill(Split(headerString), seq(256, _ => 0))
  }

  /** parse_header: split, then store each pair into a list of 256 zeros. */
  method ParseHeader(headerString: string) returns (r: Result<seq<int>, HeaderError>)
    ensures r == ParseHeaderSpec(headerString)
  {
    var splitHeader := Split(headerString);
    var listOfFreqs := new int[256](_ => 0);
    assert listOfFreqs[..] == seq(256, _ => 0);
    var each := 0;
    while each < |splitHeader|
      invariant each <= |splitHeader|
      invariant Fill(splitHeader[each..], listOfFreqs[..]) == ParseHeaderSpec(headerString)
      decreases |splitHeader| - each
    {
      var asciiChar := splitHeader[each];
      if each + 1 >= |splitHeader| {
        return Err(IndexError);
      }
      var freq := splitHeader[each + 1];
      var v := ParseInt(freq);
      if v.None? {
        return Err(ValueError);
      }
      var c := ParseInt(asciiChar);
      if c.None? {
        return Err(ValueError);
      }
      if c.value < -256 || c.value >= 256 {
        return Err(IndexError);
      }
      assert splitHeader[each..][2..] == splitHeader[each + 2..];
      listOfFreqs[Slot(c.value)] := v.value;
      each := each + 2;
    }
    r := Ok(listOfFreqs[..]);
  }

  /** Tokens, collected from index k upwards instead. */
  function TokensFrom(freqs: seq<int>, k: nat): seq<string>
    requires k <= |freqs|
    decreases |freqs| - k
  {
    if k == |freqs| then []
    else (if freqs[k] > 0 then [NatToString(k), NatToString(freqs[k])] else []) + TokensFrom(freqs, k + 1)
  }

  lemma {:induction false} TokensBothWays(freqs: seq<int>, k: nat)
    requires k <= |freqs|
    ensures Tokens(freqs, k) + TokensFrom(freqs, k) == TokensFrom(freqs, 0)
  {
    if k > 0 {
      TokensBothWays(freqs, k - 1);
      var pair := if freqs[k - 1] > 0 then [NatToString(k - 1), NatToString(freqs[k - 1])] else [];
      assert TokensFrom(freqs, k - 1) == pair + TokensFrom(freqs, k);
      assert Tokens(freqs, k) == Tokens(freqs, k - 1) + pair;
    }
  }

  /** One step of Fill over a pair of numerals the header writes. */
  lemma FillNumeralPair(c: nat, v: nat, rest: seq<string>, acc: seq<int>)
    requires c < 256 && |acc| == 256
    ensures Fill([NatToString(c), NatToString(v)] + rest, acc) == Fill(rest, acc[c := v])
  {
    ParseNatToString(c);
    ParseNatToString(v);
    assert ([NatToString(c), NatToString(v)] + rest)[2..] == rest;
  }

  /** The table after filling from the pairs written from symbol k on, over `acc`. */
  function FilledFrom(freqs: seq<int>, k: nat, acc: seq<int>): (r: seq<int>)
    requires |freqs| == 256 && |acc| == 256
    ensures |r| == 256
  {
    seq(256, j requires 0 <= j < 256 => if k <= j && freqs[j] > 0 then freqs[j] else acc[j])
  }

  lemma {:induction false} FillTokensFrom(freqs: seq<int>, k: nat, acc: seq<int>)
    requires |freqs| == 256 && k <= 256 && |acc| == 256
    ensures Fill(TokensFrom(freqs, k), acc) == Ok(FilledFrom(freqs, k, acc))
    decreases 256 - k
  {
    if k == 256 {
      assert FilledFrom(freqs, k, acc) == acc;
    } else if freqs[k] > 0 {
      FillPositiveStep(freqs, k, acc);
      FillTokensFrom(freqs, k + 1, acc[k := freqs[k]]);
      FilledFromStep(freqs, k, acc);
    } else {
      assert TokensFrom(freqs, k) == TokensFrom(freqs, k + 1);
      FillTokensFrom(freqs, k + 1, acc);
      FilledFromStep(freqs, k, acc);
    }
  }

  lemma FillPositiveStep(freqs: seq<int>, k: nat, acc: seq<int>)
    requires |freqs| == 256 && k < 256 && |acc| == 256 && freqs[k] > 0
    ensures Fill(TokensFrom(freqs, k), acc) == Fill(TokensFrom(freqs, k + 1), acc[k := freqs[k]])
  {
    FillNumeralPair(k, freqs[k], TokensFrom(freqs, k + 1), acc);
  }

  lemma FilledFromStep(freqs: seq<int>, k: nat, acc: seq<int>)
    requires |freqs| == 256 && k < 256 && |acc| == 256
    ensures FilledFrom(freqs, k, acc) == FilledFrom(freqs, k + 1, if freqs[k] > 0 then acc[k := freqs[k]] else acc)
  {
  }

  /**
   * The header round trip: parse_header gives back every table of 256
   * non-negative frequencies create_header wrote.
   */
  lemma HeaderRoundTrip(freqs: seq<int>)
    requires |freqs| == 256 && forall i :: 0 <= i < 256 ==> freqs[i] >= 0
    ensures ParseHeaderSpec(HeaderOf(freqs)) == Ok(freqs)
  {
    SplitHeader(freqs);
    TokensBothWays(freqs, 256);
    assert Tokens(freqs, 256) == TokensFrom(freqs, 0);
    FillTokensFrom(freqs, 0, seq(256, _ => 0));
    assert FilledFrom(freqs, 0, seq(256, _ => 0)) == freqs;
  }

  /** Tokens parse_header accepts: whole pairs of integers, each symbol in -256..255. */
  predicate GoodPairs(tokens: seq<string>) {
    && |tokens| % 2 == 0
    && (forall i :: 0 <= i < |tokens| ==> ParseInt(tokens[i]).Some?)
    && (forall i :: 0 <= i < |tokens| && i % 2 == 0 ==> -256 <= ParseInt(tokens[i]).value < 256)
  }

  /** parse_header fails exactly on the token lists that are not good pairs. */
  lemma {:induction false} FillOkIff(tokens: seq<string>, acc: seq<int>)
    requires |acc| == 256
    ensures Fill(tokens, acc).Ok? <==> GoodPairs(tokens)
    decreases |tokens|
  {
    if |tokens| >= 2 {
      GoodPairsFront(tokens);
      if ParseInt(tokens[1]).Some? && ParseInt(tokens[0]).Some? && -256 <= ParseInt(tokens[0]).value < 256 {
        FillOkIff(tokens[2..], acc[Slot(ParseInt(tokens[0]).value) := ParseInt(tokens[1]).value]);
      }
    }
  }

  /** Good pairs are a good first pair followed by good pairs. */
  lemma GoodPairsFront(tokens: seq<string>)
    requires |tokens| >= 2
    ensures GoodPairs(tokens) <==>
              && ParseInt(tokens[0]).Some? && ParseInt(tokens[1]).Some?
              && -256 <= ParseInt(tokens[0]).value < 256
              && GoodPairs(tokens[2..])
  {
    var rest := tokens[2..];
    if GoodPairs(rest) && ParseInt(tokens[0]).Some? && ParseInt(tokens[1]).Some? && -256 <= ParseInt(tokens[0]).value < 256 {
      forall i | 0 <= i < |tokens|
        ensures ParseInt(tokens[i]).Some?
        ensures i % 2 == 0 ==> -256 <= ParseInt(tokens[i]).value < 256
      {
        if i >= 2 {
          assert tokens[i] == rest[i - 2];
        }
      }
    }
    if GoodPairs(tokens) {
      forall i | 0 <= i < |rest|
        ensures ParseInt(rest[i]).Some?
        ensures i % 2 == 0 ==> -256 <= ParseInt(rest[i]).value < 256
      {
        assert rest[i] == tokens[i + 2];
      }
    }
  }

  /** In particular an odd number of tokens never parses. */
  lemma OddTokenCountFails(headerString: string)
    requires |Split(headerString)| % 2 == 1
    ensures ParseHeaderSpec(headerString).Err?
  {
    FillOkIff(Split(headerString), seq(256, _ => 0));
  }

  /**
   * Reference definition of "the last pair wins": the value of the last
   * pair whose symbol lands in slot j, or `dflt` when no pair does.
   */
  function LastWrite(tokens: seq<string>, j: nat, dflt: int): int
    requires GoodPairs(tokens)
    decreases |tokens|
  {
    if |tokens| == 0 then dflt
    else
      var n := |tokens|;
      if Slot(ParseInt(tokens[n - 2]).value) == j then ParseInt(tokens[n - 1]).value
      else LastWrite(tokens[..n - 2], j, dflt)
  }

  lemma {:induction false} LastWriteFront(tokens: seq<string>, j: nat, dflt: int)
    requires GoodPairs(tokens) && |tokens| >= 2
    ensures GoodPairs(tokens[2..])
    ensures LastWrite(tokens, j, dflt) ==
            LastWrite(tokens[2..], j, if Slot(ParseInt(tokens[0]).value) == j then ParseInt(tokens[1]).value else dflt)
    decreases |tokens|
  {
    var rest := tokens[2..];
    assert forall i :: 0 <= i < |rest| ==> rest[i] == tokens[i + 2];
    if |tokens| > 2 {
      var n := |tokens|;
      var init := tokens[..n - 2];
      assert forall i :: 0 <= i < |init| ==> init[i] == tokens[i];
      LastWriteFront(init, j, dflt);
      assert init[2..] == rest[..n - 4];
    }
  }

  /**
   * When a header parses, each slot holds the value of the last pair for
   * it (a negative symbol counting from the end), and 0 when no pair names it.
   */
  lemma {:induction false} FillLastWins(tokens: seq<string>, acc: seq<int>)
    requires |acc| == 256 && GoodPairs(tokens)
    ensures Fill(tokens, acc).Ok?
    ensures forall j :: 0 <= j < 256 ==> Fill(tokens, acc).value[j] == LastWrite(tokens, j, acc[j])
    decreases |tokens|
  {
    FillOkIff(tokens, acc);
    if |tokens| >= 2 {
      var c, v := ParseInt(tokens[0]).value, ParseInt(tokens[1]).value;
      var acc' := acc[Slot(c) := v];
      forall j | 0 <= j < 256
        ensures LastWrite(tokens, j, acc[j]) == LastWrite(tokens[2..], j, acc'[j])
      {
        LastWriteFront(tokens, j, acc[j]);
      }
      LastWriteFront(tokens, 0, 0);
      FillLastWins(tokens[2..], acc');
    }
  }

  lemma ParseHeaderLastWins(headerString: string)
    requires GoodPairs(Split(headerString))
    ensures ParseHeaderSpec(headerString).Ok?
    ensures forall j :: 0 <= j < 256 ==> ParseHeaderSpec(headerString).value[j] == LastWrite(Split(headerString), j, 0)
  {
    FillLastWins(Split(headerString), seq(256, _ => 0));
  }

  /** A negative symbol counts from the end of the list. */
  lemma NegativeSymbolWraps()
    ensures ParseHeaderSpec("-1 5") == Ok(seq(256, _ => 0)[255 := 5])
  {
    SplitSpaced(["-1", "5"]);
    assert DropLast(SpaceAfterEach(["-1", "5"])) == "-1 5";
    assert ParseInt("5") == Some(5);
    assert ParseInt("-1") == Some(-1);
  }

  lemma SplitThreeExample()
    ensures Split("0 1 97") == ["0", "1", "97"]
  {
    SplitSpaced(["0", "1", "97"]);
    assert ["0", "1", "97"][..2] == ["0", "1"];
    assert SpaceAfterEach(["0", "1"]) == "0 1 ";
    assert DropLast(SpaceAfterEach(["0", "1", "97"])) == "0 1 97";
  }

  /** A missing frequency token raises IndexError. */
  lemma MissingFrequencyExample()
    ensures ParseHeaderSpec("0 1 97") == Err(IndexError)
  {
    SplitThreeExample();
    assert ParseInt("0") == Some(0) && ParseInt("1") == Some(1);
    assert ["0", "1", "97"][2..] == ["97"];
  }

  lemma SplitOutOfRangeExample()
    ensures Split("256 1") == ["256", "1"]
  {
    SplitSpaced(["256", "1"]);
    assert DropLast(SpaceAfterEach(["256", "1"])) == "256 1";
  }

  /** A symbol past the end of the list raises IndexError. */
  lemma SymbolOutOfRangeExample()
    ensures ParseHeaderSpec("256 1") == Err(IndexError)
  {
    SplitOutOfRangeExample();
    assert DigitsValue("2") == 2 && DigitsValue("25") == 25 && DigitsValue("256") == 256;
    assert ParseInt("256") == Some(256) && ParseInt("1") == Some(1);
  }

  /** A token that is not an integer raises ValueError. */
  lemma NonIntegerExample()
    ensures ParseHeaderSpec("97 x") == Err(ValueError)
  {
    SplitSpaced(["97", "x"]);
    assert DropLast(SpaceAfterEach(["97", "x"])) == "97 x";
    assert ParseInt("x") == None;
  }

  lemma SplitRepeatExample()
    ensures Split("97 1 97 2") == ["97", "1", "97", "2"]
  {
    SplitSpaced(["97", "1", "97", "2"]);
    assert ["97", "1", "97", "2"][..3] == ["97", "1", "97"];
    assert ["97", "1", "97"][..2] == ["97", "1"];
    assert SpaceAfterEach(["97", "1"]) == "97 1 ";
    assert SpaceAfterEach(["97", "1", "97"]) == "97 1 97 ";
    assert DropLast(SpaceAfterEach(["97", "1", "97", "2"])) == "97 1 97 2";
  }

  /** A symbol given twice keeps the value of its last pair. */
  lemma RepeatedSymbolExample()
    ensures ParseHeaderSpec("97 1 97 2") == Ok(seq(256, _ => 0)[97 := 2])
  {
    SplitRepeatExample();
    var z := seq(256, _ => 0);
    RepeatFirstPair(z);
    RepeatSecondPair(z[97 := 1]);
    assert z[97 := 1][97 := 2] == z[97 := 2];
  }

  lemma RepeatFirstPair(acc: seq<int>)
    requires |acc| == 256
    ensures Fill(["97", "1", "97", "2"], acc) == Fill(["97", "2"], acc[97 := 1])
  {
    assert NatToString(97) == "97" && NatToString(1) == "1";
    FillNumeralPair(97, 1, ["97", "2"], acc);
    assert ["97", "1", "97", "2"] == ["97", "1"] + ["97", "2"];
  }

  lemma RepeatSecondPair(acc: seq<int>)
    requires |acc| == 256
    ensures Fill(["97", "2"], acc) == Ok(acc[97 := 2])
  {
    assert NatToString(97) == "97" && NatToString(2) == "2";
    FillNumeralPair(97, 2, [], acc);
    assert ["97", "2"] == ["97", "2"] + [];
  }
}
