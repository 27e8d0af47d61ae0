/**
  The text form of a dithered picture: a header "<w>x<h>;", then the index
  buffer as maximal runs, each written as its letter ('a' + index) preceded
  by its length in decimal when the length is at least 2, then a newline.

  `Runs` is the run decomposition, `Serialise` the text; `Decode` reads the
  text back. `Encode` is the emitting loop, proved to write `Serialise`.
 */
module RunLength {
  import opened Colour

  datatype Option<T> = None | Some(value: T)

  /** `count` consecutive copies of the palette index `symbol`. */
  datatype Run = Run(symbol: int, count: nat)

  /** A decoded picture: its size and its row-major index buffer. */
  datatype Picture = Picture(width: nat, height: nat, indices: seq<int>)

  // ----- Characters -----

  predicate IsDigit(c: char) { '0' <= c <= '9' }

  predicate IsLetter(c: char) { 'a' <= c <= 'p' }

  function Digit(d: int): (c: char)
    requires 0 <= d < 10
    ensures IsDigit(c)
  {
    ('0' as int + d) as char
  }

  function DigitValue(c: char): (d: int)
    requires IsDigit(c)
    ensures 0 <= d < 10
  {
    c as int - '0' as int
  }

  /** The letter of palette index i: 'a' for 0 through 'p' for 15. */
  function Letter(i: PaletteIndex): (c: char)
    ensures IsLetter(c)
  {
    ('a' as int + i) as char
  }

  function LetterIndex(c: char): (i: PaletteIndex)
    requires IsLetter(c)
  {
    c as int - 'a' as int
  }

  /** Letters and indices correspond one to one. */
  lemma LetterBijective(i: PaletteIndex, c: char)
    requires IsLetter(c)
    ensures LetterIndex(Letter(i)) == i
    ensures Letter(LetterIndex(c)) == c
    ensures IsLetter(c) && !IsDigit(c) && c != '\n'
  {
  }

  // ----- Decimal numbers -----

  /** The decimal form of n, most significant digit first, without leading zeros. */
  function Decimal(n: nat): (s: string)
    ensures |s| >= 1
    ensures forall i :: 0 <= i < |s| ==> IsDigit(s[i])
    ensures s[0] == '0' ==> n == 0
  {
    if n < 10 then [Digit(n)] else Decimal(n / 10) + [Digit(n % 10)]
  }

  predicate AllDigits(s: string) {
    forall i :: 0 <= i < |s| ==> IsDigit(s[i])
  }

  /** The number a string of digits denotes. */
  function Value(s: string): nat
    requires AllDigits(s)
  {
    if |s| == 0 then 0 else Value(s[..|s| - 1]) * 10 + DigitValue(s[|s| - 1])
  }

  lemma {:induction false} ValueOfDecimal(n: nat)
    ensures Value(Decimal(n)) == n
  {
    if n >= 10 {
      ValueOfDecimal(n / 10);
      var p := Decimal(n / 10);
      assert (p + [Digit(n % 10)])[..|p|] == p;
    }
  }

  /** The length of the longest prefix of s made of digits. */
  function DigitSpan(s: string): (k: nat)
    ensures k <= |s|
    ensures AllDigits(s[..k])
    ensures k == |s| || !IsDigit(s[k])
  {
    if |s| == 0 || !IsDigit(s[0]) then 0
    else
      var k := 1 + DigitSpan(s[1..]);
      assert forall i :: 1 <= i < k ==> s[..k][i] == s[1..][..k - 1][i - 1];
      k
  }

  lemma {:induction false} DigitSpanOfDigits(a: string, rest: string)
    requires AllDigits(a)
    requires |rest| == 0 || !IsDigit(rest[0])
    ensures DigitSpan(a + rest) == |a|
  {
    if |a| > 0 {
      assert (a + rest)[1..] == a[1..] + rest;
      DigitSpanOfDigits(a[1..], rest);
    }
  }

  /** Reads a decimal number off the front of s; None when s does not start with a digit. */
  function ReadNumber(s: string): (r: Option<(nat, string)>)
    ensures r.Some? <==> |s| > 0 && IsDigit(s[0])
    ensures r.Some? ==> |r.value.1| < |s|
    ensures r.Some? ==> |r.value.1| == 0 || !IsDigit(r.value.1[0])
  {
    var k := DigitSpan(s);
    if k == 0 then None else Some((Value(s[..k]), s[k..]))
  }

  /** Decimal and ReadNumber are inverse when the number is not followed by a digit. */
  lemma ReadDecimal(n: nat, rest: string)
    requires |rest| == 0 || !IsDigit(rest[0])
    ensures ReadNumber(Decimal(n) + rest) == Some((n, rest))
  {
    var d := Decimal(n);
    DigitSpanOfDigits(d, rest);
    assert (d + rest)[..|d|] == d;
    assert (d + rest)[|d|..] == rest;
    ValueOfDecimal(n);
  }

  // ----- Runs -----

  /** `c` copies of `x`. */
  function Repeat(x: int, c: nat): (s: seq<int>)
    ensures |s| == c
    ensures forall i :: 0 <= i < c ==> s[i] == x
  {
    if c == 0 then [] else Repeat(x, c - 1) + [x]
  }

  /** The sequence a list of runs stands for. */
  function Expand(r: seq<Run>): seq<int> {
    if |r| == 0 then [] else Expand(r[..|r| - 1]) + Repeat(r[|r| - 1].symbol, r[|r| - 1].count)
  }

  /** The sum of the run lengths. */
  function Total(r: seq<Run>): nat {
    if |r| == 0 then 0 else Total(r[..|r| - 1]) + r[|r| - 1].count
  }

  /**
    Splits s into maximal runs, left to right: an element equal to the
    current run's symbol lengthens it, any other element starts a new run.
   */
  function Runs(s: seq<int>): seq<Run> {
    if |s| == 0 then []
    else
      var r := Runs(s[..|s| - 1]);
      var x := s[|s| - 1];
      if |r| > 0 && r[|r| - 1].symbol == x then r[..|r| - 1] + [Run(x, r[|r| - 1].count + 1)]
      else r + [Run(x, 1)]
  }

  /** Every run is non-empty and no two neighbouring runs share a symbol. */
  predicate Maximal(r: seq<Run>) {
    (forall i :: 0 <= i < |r| ==> r[i].count >= 1) &&
    (forall i :: 0 < i < |r| ==> r[i - 1].symbol != r[i].symbol)
  }

  /** Every run's symbol is a palette index. */
  predicate PaletteRuns(r: seq<Run>) {
    forall i :: 0 <= i < |r| ==> 0 <= r[i].symbol < PaletteSize
  }

  predicate PaletteIndices(s: seq<int>) {
    forall i :: 0 <= i < |s| ==> 0 <= s[i] < PaletteSize
  }

  /** The runs are maximal and the last one carries the last element. */
  lemma {:induction false} RunsMaximal(s: seq<int>)
    ensures Maximal(Runs(s))
    ensures |s| > 0 ==> |Runs(s)| > 0 && Runs(s)[|Runs(s)| - 1].symbol == s[|s| - 1]
  {
    if |s| > 0 {
      var p, x := s[..|s| - 1], s[|s| - 1];
      var r := Runs(p);
      if |r| > 0 && r[|r| - 1].symbol == x {
        var q, c := r[..|r| - 1], r[|r| - 1].count;
        assert Runs(s) == q + [Run(x, c + 1)];
        RunsMaximal(p);
        MaximalInit(r);
        MaximalSnoc(q, Run(x, c + 1));
      } else {
        assert Runs(s) == r + [Run(x, 1)];
        RunsMaximal(p);
        MaximalSnoc(r, Run(x, 1));
      }
    }
  }

  /** Dropping the last run keeps a list maximal, and its new last run is the old second-to-last. */
  lemma MaximalInit(r: seq<Run>)
    requires Maximal(r) && |r| > 0
    ensures Maximal(r[..|r| - 1])
    ensures |r| > 1 ==> r[..|r| - 1][|r| - 2] == r[|r| - 2]
  {
  }

  /** A non-empty run whose symbol differs from the last one keeps a list maximal. */
  lemma MaximalSnoc(q: seq<Run>, run: Run)
    requires Maximal(q) && run.count >= 1
    requires |q| == 0 || q[|q| - 1].symbol != run.symbol
    ensures Maximal(q + [run])
  {
    var r := q + [run];
    assert forall i :: 0 <= i < |q| ==> r[i] == q[i];
  }

  /** The runs of a sequence of palette indices carry palette indices. */
  lemma {:induction false} RunsPalette(s: seq<int>)
    requires PaletteIndices(s)
    ensures PaletteRuns(Runs(s))
  {
    if |s| > 0 {
      var p := s[..|s| - 1];
      assert PaletteIndices(p) by {
        forall i | 0 <= i < |p| ensures 0 <= p[i] < PaletteSize { assert p[i] == s[i]; }
      }
      RunsPalette(p);
    }
  }

  /** One more run adds its symbol, repeated, to the end of the expansion. */
  lemma ExpandSnoc(r: seq<Run>, t: Run)
    ensures Expand(r + [t]) == Expand(r) + Repeat(t.symbol, t.count)
  {
    assert (r + [t])[..|r|] == r;
  }

  /** Appending one element to a decomposed sequence keeps the runs' expansion equal to it. */
  lemma ExpandRunsSnoc(p: seq<int>, x: int)
    requires Expand(Runs(p)) == p
    ensures Expand(Runs(p + [x])) == p + [x]
  {
    var r := Runs(p);
    assert (p + [x])[..|p|] == p;
    if |r| > 0 && r[|r| - 1].symbol == x {
      var q, c := r[..|r| - 1], r[|r| - 1].count;
      assert Expand(q) + Repeat(x, c) == p by {
        assert q + [Run(x, c)] == r;
        ExpandSnoc(q, Run(x, c));
      }
      assert Runs(p + [x]) == q + [Run(x, c + 1)];
      ExpandSnoc(q, Run(x, c + 1));
      assert Repeat(x, c + 1) == Repeat(x, c) + [x];
    } else {
      assert Runs(p + [x]) == r + [Run(x, 1)];
      ExpandSnoc(r, Run(x, 1));
      assert Repeat(x, 1) == [x];
    }
  }

  /** The runs expand back to the sequence they were taken from. */
  lemma {:induction false} ExpandRuns(s: seq<int>)
    ensures Expand(Runs(s)) == s
  {
    if |s| > 0 {
      var p, x := s[..|s| - 1], s[|s| - 1];
      assert s == p + [x];
      ExpandRuns(p);
      ExpandRunsSnoc(p, x);
    }
  }

  /** The run lengths add up to the length of what the runs expand to. */
  lemma {:induction false} TotalIsLength(r: seq<Run>)
    ensures Total(r) == |Expand(r)|
  {
    if |r| > 0 {
      TotalIsLength(r[..|r| - 1]);
    }
  }

  /** Everything a caller needs about Runs: maximal, palette-valued, lossless, and of total length |s|. */
  lemma RunsCorrect(s: seq<int>)
    ensures Maximal(Runs(s))
    ensures Expand(Runs(s)) == s
    ensures Total(Runs(s)) == |s|
    ensures PaletteIndices(s) ==> PaletteRuns(Runs(s))
    ensures |s| > 0 ==> |Runs(s)| > 0 && Runs(s)[|Runs(s)| - 1].symbol == s[|s| - 1]
  {
    RunsMaximal(s);
    ExpandRuns(s);
    TotalIsLength(Runs(s));
    if PaletteIndices(s) {
      RunsPalette(s);
    }
  }

  /** Appending c >= 1 copies of a symbol the runs do not end with adds exactly one run. */
  lemma {:induction false} RunsAppendRepeat(a: seq<int>, x: int, c: nat)
    requires c >= 1
    requires |a| == 0 || a[|a| - 1] != x
    ensures Runs(a + Repeat(x, c)) == Runs(a) + [Run(x, c)]
  {
    var s := a + Repeat(x, c);
    assert s[..|s| - 1] == a + Repeat(x, c - 1);
    assert s[|s| - 1] == x;
    if c == 1 {
      assert a + Repeat(x, 0) == a;
      RunsMaximal(a);
      var r := Runs(a);
      assert |r| > 0 ==> r[|r| - 1].symbol != x;
    } else {
      RunsAppendRepeat(a, x, c - 1);
      var r := Runs(a) + [Run(x, c - 1)];
      assert r[..|r| - 1] == Runs(a);
      assert r[|r| - 1].symbol == x;
    }
  }

  /**
    Maximal runs are the only runs that expand to their sequence: the
    decomposition is unique.
   */
  lemma {:induction false} RunsOfExpand(r: seq<Run>)
    requires Maximal(r)
    ensures Runs(Expand(r)) == r
  {
    if |r| > 0 {
      var q, last := r[..|r| - 1], r[|r| - 1];
      assert r == q + [last];
      ExpandSnoc(q, last);
      MaximalInit(r);
      RunsOfExpand(q);
      if |q| > 0 {
        RunsCorrect(Expand(q));
      }
      RunsAppendRepeat(Expand(q), last.symbol, last.count);
    }
  }

  // ----- Text -----

  /** A run's text: the length in decimal when it is at least 2, then the letter. */
  function Token(run: Run): string
    requires 0 <= run.symbol < PaletteSize
  {
    if run.count > 1 then Decimal(run.count) + [Letter(run.symbol)] else [Letter(run.symbol)]
  }

  /**
    A token ends in the run's letter, everything before the letter is a
    digit, and the letter stands alone exactly for a run of 1.
   */
  lemma TokenForm(run: Run)
    requires 0 <= run.symbol < PaletteSize
    ensures var t := Token(run);
      |t| >= 1 && t[|t| - 1] == Letter(run.symbol) &&
      (forall i :: 0 <= i < |t| - 1 ==> IsDigit(t[i])) &&
      (|t| == 1 <==> run.count <= 1)
  {
  }

  /** The texts of the runs, concatenated in order. */
  function Body(r: seq<Run>): string
    requires PaletteRuns(r)
  {
    if |r| == 0 then "" else Token(r[0]) + Body(r[1..])
  }

  lemma {:induction false} BodySnoc(r: seq<Run>, t: Run)
    requires PaletteRuns(r) && 0 <= t.symbol < PaletteSize
    ensures PaletteRuns(r + [t])
    ensures Body(r + [t]) == Body(r) + Token(t)
  {
    if |r| > 0 {
      assert (r + [t])[1..] == r[1..] + [t];
      BodySnoc(r[1..], t);
    } else {
      assert [t][1..] == [];
    }
  }

  /** The text of one more run is the text so far followed by that run's token. */
  lemma TextSnoc(w: nat, h: nat, r: seq<Run>, t: Run)
    requires PaletteRuns(r) && 0 <= t.symbol < PaletteSize
    ensures PaletteRuns(r + [t])
    ensures Header(w, h) + Body(r + [t]) == Header(w, h) + Body(r) + Token(t)
  {
    BodySnoc(r, t);
  }

  function Header(w: nat, h: nat): string {
    Decimal(w) + "x" + Decimal(h) + ";"
  }

  /** The whole output for a w by h picture with index buffer s. */
  function Serialise(w: nat, h: nat, s: seq<int>): string
    requires PaletteIndices(s)
  {
    RunsCorrect(s);
    Header(w, h) + Body(Runs(s)) + "\n"
  }

  // ----- Reading the text back -----

  /** Reads run texts up to the final newline. */
  function DecodeBody(t: string): (r: Option<seq<Run>>)
    ensures r.Some? ==> PaletteRuns(r.value)
    decreases |t|
  {
    if t == "\n" then Some([])
    else if |t| == 0 then None
    else if IsLetter(t[0]) then
      match DecodeBody(t[1..])
      case None => None
      case Some(rest) => Some([Run(LetterIndex(t[0]), 1)] + rest)
    else
      match ReadNumber(t)
      case None => None
      case Some((n, after)) =>
        if 2 <= n && |after| > 0 && IsLetter(after[0]) then
          match DecodeBody(after[1..])
          case None => None
          case Some(rest) => Some([Run(LetterIndex(after[0]), n)] + rest)
        else None
  }

  /** Reads "<w>x<h>;" off the front of a text. */
  function ReadHeader(text: string): Option<(nat, nat, string)> {
    match ReadNumber(text)
    case None => None
    case Some((w, r1)) =>
      if |r1| == 0 || r1[0] != 'x' then None
      else
        match ReadNumber(r1[1..])
        case None => None
        case Some((h, r2)) =>
          if |r2| == 0 || r2[0] != ';' then None else Some((w, h, r2[1..]))
  }

  /** Reads a whole text: the header, the runs, and a check that they fill w by h. */
  function Decode(text: string): (p: Option<Picture>)
    ensures p.Some? ==> |p.value.indices| == p.value.width * p.value.height
  {
    match ReadHeader(text)
    case None => None
    case Some((w, h, body)) =>
      match DecodeBody(body)
      case None => None
      case Some(runs) =>
        var px := Expand(runs);
        if |px| == w * h then Some(Picture(w, h, px)) else None
  }

  /** A bare letter decodes as a run of length 1. */
  lemma DecodeLetterToken(c: char, tail: string, rest: seq<Run>)
    requires IsLetter(c) && DecodeBody(tail) == Some(rest)
    ensures DecodeBody([c] + tail) == Some([Run(LetterIndex(c), 1)] + rest)
  {
    var t := [c] + tail;
    assert t[0] == c && t[1..] == tail;
    assert t != "\n";
  }

  /** A count of at least 2 followed by a letter decodes as a run of that length. */
  lemma DecodeCountToken(n: nat, c: char, tail: string, rest: seq<Run>)
    requires n >= 2 && IsLetter(c) && DecodeBody(tail) == Some(rest)
    ensures DecodeBody(Decimal(n) + ([c] + tail)) == Some([Run(LetterIndex(c), n)] + rest)
  {
    var after := [c] + tail;
    var t := Decimal(n) + after;
    ReadDecimal(n, after);
    assert t[0] == Decimal(n)[0];
    assert t != "\n";
    assert after[0] == c && after[1..] == tail;
  }

  /** A run's token, followed by decodable text, decodes to that run followed by the rest. */
  lemma DecodeToken(run: Run, tail: string, rest: seq<Run>)
    requires 0 <= run.symbol < PaletteSize && run.count >= 1
    requires DecodeBody(tail) == Some(rest)
    ensures DecodeBody(Token(run) + tail) == Some([run] + rest)
  {
    var letter := Letter(run.symbol);
    LetterBijective(run.symbol, letter);
    if run.count == 1 {
      assert Token(run) + tail == [letter] + tail;
      DecodeLetterToken(letter, tail, rest);
    } else {
      assert Token(run) + tail == Decimal(run.count) + ([letter] + tail);
      DecodeCountToken(run.count, letter, tail, rest);
    }
  }

  /** Decoding the text of non-empty palette runs gives the runs back. */
  lemma {:induction false} DecodeBodyOfBody(r: seq<Run>)
    requires PaletteRuns(r)
    requires forall i :: 0 <= i < |r| ==> r[i].count >= 1
    ensures DecodeBody(Body(r) + "\n") == Some(r)
  {
    if |r| > 0 {
      DecodeBodyOfBody(r[1..]);
      DecodeBodyCons(r[0], r[1..]);
      assert [r[0]] + r[1..] == r;
    }
  }

  /** One more run in front of decodable runs decodes too. */
  lemma DecodeBodyCons(run: Run, more: seq<Run>)
    requires 0 <= run.symbol < PaletteSize && run.count >= 1 && PaletteRuns(more)
    requires DecodeBody(Body(more) + "\n") == Some(more)
    ensures PaletteRuns([run] + more)
    ensures DecodeBody(Body([run] + more) + "\n") == Some([run] + more)
  {
    var r := [run] + more;
    assert r[0] == run && r[1..] == more;
    var tail := Body(more) + "\n";
    assert Body(r) + "\n" == Token(run) + tail;
    DecodeToken(run, tail, more);
  }

  /** The header is read back whatever follows it. */
  lemma ReadHeaderOfHeader(w: nat, h: nat, tail: string)
    ensures ReadHeader(Header(w, h) + tail) == Some((w, h, tail))
  {
    var dw, dh := Decimal(w), Decimal(h);
    var r2 := ";" + tail;
    var r1 := "x" + (dh + r2);
    assert ((dw + "x") + dh) + ";" + tail == ((dw + "x") + dh) + r2;
    assert ((dw + "x") + dh) + r2 == (dw + "x") + (dh + r2);
    assert (dw + "x") + (dh + r2) == dw + r1;
    assert Header(w, h) + tail == dw + r1;
    ReadDecimal(w, r1);
    ReadSecondNumber(h, r1, r2);
    assert r2[1..] == tail;
  }

  lemma ReadSecondNumber(h: nat, r1: string, r2: string)
    requires r1 == "x" + (Decimal(h) + r2) && |r2| > 0 && r2[0] == ';'
    ensures |r1| > 0 && r1[0] == 'x' && ReadNumber(r1[1..]) == Some((h, r2))
  {
    assert r1[1..] == Decimal(h) + r2;
    ReadDecimal(h, r2);
  }

  /** Decoding the serialised text of a w by h picture gives the picture back. */
  lemma DecodeSerialise(w: nat, h: nat, s: seq<int>)
    requires PaletteIndices(s) && |s| == w * h
    ensures Decode(Serialise(w, h, s)) == Some(Picture(w, h, s))
  {
    RunsCorrect(s);
    var runs := Runs(s);
    var tail := Body(runs) + "\n";
    DecodeBodyOfBody(runs);
    assert Serialise(w, h, s) == Header(w, h) + tail;
    ReadHeaderOfHeader(w, h, tail);
  }

  /** Every character of the body is a digit or one of the letters 'a'..'p'. */
  lemma {:induction false} BodyAlphabet(r: seq<Run>)
    requires PaletteRuns(r)
    ensures forall i :: 0 <= i < |Body(r)| ==> IsDigit(Body(r)[i]) || IsLetter(Body(r)[i])
  {
    if |r| > 0 {
      BodyAlphabet(r[1..]);
      var tok := Token(r[0]);
      assert forall i :: 0 <= i < |tok| ==> IsDigit(tok[i]) || IsLetter(tok[i]);
      assert Body(r) == tok + Body(r[1..]);
    }
  }

  /**
    One more element either lengthens the last run or, when it differs from
    the last run's symbol, starts a new run of length 1.
   */
  lemma RunsExtend(p: seq<int>, x: int, done: seq<Run>, last: int, count: nat)
    requires Runs(p) == done + [Run(last, count)]
    ensures Runs(p + [x]) == if x == last then done + [Run(last, count + 1)] else done + [Run(last, count), Run(x, 1)]
  {
    var s := p + [x];
    assert s[..|s| - 1] == p;
    var r := done + [Run(last, count)];
    assert r[..|r| - 1] == done;
  }

  /** The encoder's step when the element at i continues the open run. */
  lemma EncodeExtendRun(s: seq<int>, i: nat, done: seq<Run>, last: int, count: nat)
    requires i < |s| && s[i] == last
    requires Runs(s[..i]) == done + [Run(last, count)]
    ensures Runs(s[..i + 1]) == done + [Run(last, count + 1)]
  {
    assert s[..i + 1] == s[..i] + [s[i]];
    RunsExtend(s[..i], s[i], done, last, count);
  }

  /**
    The encoder's step when the element at i starts a new run: the open run
    is closed, and the text grows by exactly that run's token.
   */
  lemma EncodeCloseRun(w: nat, h: nat, s: seq<int>, i: nat, done: seq<Run>, last: int, count: nat)
    requires i < |s| && s[i] != last && 0 <= last < PaletteSize
    requires PaletteRuns(done) && Runs(s[..i]) == done + [Run(last, count)]
    ensures PaletteRuns(done + [Run(last, count)])
    ensures Runs(s[..i + 1]) == (done + [Run(last, count)]) + [Run(s[i], 1)]
    ensures Header(w, h) + Body(done + [Run(last, count)]) == Header(w, h) + Body(done) + Token(Run(last, count))
  {
    assert s[..i + 1] == s[..i] + [s[i]];
    RunsExtend(s[..i], s[i], done, last, count);
    TextSnoc(w, h, done, Run(last, count));
  }

  /** The encoder's last step: closing the open run and ending the line gives the whole output. */
  lemma EncodeFinish(w: nat, h: nat, s: seq<int>, done: seq<Run>, last: int, count: nat)
    requires PaletteIndices(s) && 0 <= last < PaletteSize
    requires PaletteRuns(done) && Runs(s) == done + [Run(last, count)]
    ensures Header(w, h) + Body(done) + Token(Run(last, count)) + "\n" == Serialise(w, h, s)
  {
    TextSnoc(w, h, done, Run(last, count));
  }

  lemma ExampleRuns()
    ensures Runs([15, 0, 0, 15]) == [Run(15, 1), Run(0, 2), Run(15, 1)]
  {
    assert Runs([15]) == [] + [Run(15, 1)] by {
      assert [15][..0] == [];
    }
    RunsExtend([15], 0, [], 15, 1);
    assert [15] + [0] == [15, 0];
    RunsExtend([15, 0], 0, [Run(15, 1)], 0, 1);
    assert [15, 0] + [0] == [15, 0, 0];
    RunsExtend([15, 0, 0], 15, [Run(15, 1)], 0, 2);
    assert [15, 0, 0] + [15] == [15, 0, 0, 15];
  }

  lemma ExampleBody()
    ensures Body([Run(15, 1), Run(0, 2), Run(15, 1)]) == "p2ap"
  {
    var r := [Run(15, 1), Run(0, 2), Run(15, 1)];
    assert Letter(15) == 'p' && Letter(0) == 'a' && Decimal(2) == "2";
    assert r[1..] == [Run(0, 2), Run(15, 1)] && r[1..][1..] == [Run(15, 1)] && r[1..][1..][1..] == [];
    assert Body(r[1..][1..]) == "p";
    assert Body(r[1..]) == "2a" + "p";
  }

  /** A 2 by 2 picture: white, two blacks, white. */
  lemma ExampleTwoByTwo()
    ensures Serialise(2, 2, [15, 0, 0, 15]) == "2x2;p2ap\n"
  {
    ExampleRuns();
    ExampleBody();
    assert Decimal(2) == "2";
  }

  /** The example text decodes back to the 2x2 picture. */
  lemma ExampleDecodes()
    ensures Decode("2x2;p2ap\n") == Some(Picture(2, 2, [15, 0, 0, 15]))
  {
    var s := [15, 0, 0, 15];
    ExampleTwoByTwo();
    DecodeSerialise(2, 2, s);
  }

  // ----- The emitting loop -----

  /**
    Writes the header, then walks the index buffer keeping the current run's
    symbol and length, writing a run's text whenever a different index ends it
    and the last run's text with the newline at the end.
   */
  method Encode(w: nat, h: nat, indices: array<int>) returns (text: string)
    requires indices.Length == w * h && w * h >= 1
    requires PaletteIndices(indices[..])
    ensures text == Serialise(w, h, indices[..])
  {
    ghost var s := indices[..];
    text := Decimal(w) + "x" + Decimal(h) + ";";
    var count := 1;
    var last := indices[0];
    ghost var done: seq<Run> := [];
    assert s[..1] == [last];
    assert Runs(s[..1]) == [Run(last, 1)];
    for i := 1 to w * h
      invariant 0 <= last < PaletteSize && count >= 1
      invariant PaletteRuns(done)
      invariant Runs(s[..i]) == done + [Run(last, count)]
      invariant text == Header(w, h) + Body(done)
    {
      if indices[i] == last {
        EncodeExtendRun(s, i, done, last, count);
        count := count + 1;
      } else {
        EncodeCloseRun(w, h, s, i, done, last, count);
        if count > 1 {
          text := text + (Decimal(count) + [Letter(last)]);
        } else {
          text := text + [Letter(last)];
        }
        done := done + [Run(last, count)];
        count := 1;
        last := indices[i];
      }
    }
    assert s[..w * h] == s;
    EncodeFinish(w, h, s, done, last, count);
    if count > 1 {
      text := text + (Decimal(count) + [Letter(last)]) + "\n";
    } else {
      text := text + [Letter(last)] + "\n";
    }
  }
}
