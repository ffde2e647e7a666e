/**
 * The JSON reader of json.cpp (`LoadNode` and the loaders it dispatches to).
 *
 * The input stream is a text with a cursor. A text is the stream's sequence of C++ `char`s,
 * one model character per byte (0-255); UTF-8 input is given byte by byte, so a character
 * outside ASCII is several model characters. Each loader is specified by a function of the text
 * and the cursor position that gives the node read and the position after it, or the message
 * of the `ParsingError` the loader throws; the loaders themselves are methods over a `Stream`
 * whose loops are proved to compute those functions.
 */
module JsonParser {
  import opened Wrappers
  import opened Json

  /** `isspace` in the C locale: the characters `operator>>` skips. */
  predicate IsSpace(c: char) {
    c == ' ' || c == '\t' || c == '\n' || c == '\U{B}' || c == '\U{C}' || c == '\r'
  }

  predicate IsDigit(c: char) {
    '0' <= c <= '9'
  }

  /** The first position at or after p that does not hold whitespace. */
  function SkipSpace(t: seq<char>, p: nat): (q: nat)
    requires p <= |t|
    ensures p <= q <= |t|
    ensures q < |t| ==> !IsSpace(t[q])
    decreases |t| - p
  {
    if p < |t| && IsSpace(t[p]) then SkipSpace(t, p + 1) else p
  }

  /**
   * `input >> c` on a `char`: skip whitespace and take the next character, or fail at the end
   * of the input, where the cursor then stays.
   */
  function Extracted(t: seq<char>, p: nat): (r: (Option<char>, nat))
    requires p <= |t|
    ensures p <= r.1 <= |t|
    ensures r.0.None? <==> SkipSpace(t, p) == |t|
    ensures r.0.None? ==> r.1 == |t|
    ensures r.0.Some? ==> r.1 == SkipSpace(t, p) + 1 && t[r.1 - 1] == r.0.value && !IsSpace(r.0.value)
  {
    var q := SkipSpace(t, p);
    if q == |t| then (None, q) else (Some(t[q]), q + 1)
  }

  // ---------------------------------------------------------------------------------------
  // Numbers (json.cpp:9-69)

  /** The end of the run of digits that starts at p. */
  function DigitsEnd(t: seq<char>, p: nat): (q: nat)
    requires p <= |t|
    ensures p <= q <= |t|
    ensures q < |t| ==> !IsDigit(t[q])
    decreases |t| - p
  {
    if p < |t| && IsDigit(t[p]) then DigitsEnd(t, p + 1) else p
  }

  /** `read_digits`: one or more digits, else "A digit is expected". */
  function DigitsAt(t: seq<char>, p: nat): (r: Result<nat>)
    requires p <= |t|
    ensures r.Ok? ==> p < r.value <= |t| && r.value == DigitsEnd(t, p)
    ensures r.Err? <==> p == |t| || !IsDigit(t[p])
  {
    if p < |t| && IsDigit(t[p]) then Ok(DigitsEnd(t, p)) else Err("A digit is expected")
  }

  /** Where the text of a number ends, and whether it is an int (no fraction, no exponent). */
  datatype Lexeme = Lexeme(end: nat, isInt: bool)

  /** The integer part: a lone '0', or one or more digits. */
  function IntegerEnd(t: seq<char>, p: nat): (r: Result<nat>)
    requires p <= |t|
    ensures r.Ok? ==> p < r.value <= |t|
    ensures r.Err? <==> p == |t| || !IsDigit(t[p])
  {
    if p < |t| && t[p] == '0' then Ok(p + 1) else DigitsAt(t, p)
  }

  /** The optional fraction: a '.' followed by one or more digits. */
  function FractionEnd(t: seq<char>, p: nat): (r: Result<nat>)
    requires p <= |t|
    ensures r.Ok? ==> p <= r.value <= |t|
    ensures r.Ok? ==> (r.value > p <==> p < |t| && t[p] == '.')
  {
    if p < |t| && t[p] == '.' then DigitsAt(t, p + 1) else Ok(p)
  }

  /** The optional exponent: an 'e' or 'E', an optional sign, then one or more digits. */
  function ExponentEnd(t: seq<char>, p: nat): (r: Result<nat>)
    requires p <= |t|
    ensures r.Ok? ==> p <= r.value <= |t|
    ensures r.Ok? ==> (r.value > p <==> p < |t| && (t[p] == 'e' || t[p] == 'E'))
  {
    if p < |t| && (t[p] == 'e' || t[p] == 'E') then
      if p + 1 < |t| && (t[p + 1] == '+' || t[p + 1] == '-') then DigitsAt(t, p + 2) else DigitsAt(t, p + 1)
    else Ok(p)
  }

  /**
   * The characters `LoadNumber` collects into `parsed_num`: an optional '-', then the integer
   * part, the optional fraction and the optional exponent. Where digits are required and absent
   * the loader fails.
   */
  function NumberLexeme(t: seq<char>, p: nat): (r: Result<Lexeme>)
    requires p <= |t|
    ensures r.Ok? ==> p < r.value.end <= |t|
  {
    var p1 := if p < |t| && t[p] == '-' then p + 1 else p;
    var p2 :- IntegerEnd(t, p1);
    var p3 :- FractionEnd(t, p2);
    var p4 :- ExponentEnd(t, p3);
    Ok(Lexeme(p4, p3 == p2 && p4 == p3))
  }

  function DigitOf(c: char): nat {
    if IsDigit(c) then c as int - '0' as int else 0
  }

  /** The value of a string of decimal digits. */
  function DigitsValue(ds: seq<char>): nat
    decreases |ds|
  {
    if |ds| == 0 then 0 else DigitsValue(ds[..|ds| - 1]) * 10 + DigitOf(ds[|ds| - 1])
  }

  /** `std::stoi` on the text of an int: the signed value, which must fit the 32-bit range. */
  function Stoi(w: string): (r: Result<int>)
    ensures r.Ok? ==> InIntRange(r.value)
  {
    var v: int := if |w| > 0 && w[0] == '-' then -(DigitsValue(w[1..]) as int) else DigitsValue(w);
    if InIntRange(v) then Ok(v) else Err("out of range")
  }

  /**
   * `std::stod` on the text of a double: the decimal number it denotes, as the digits of the
   * integer and fractional parts together scaled by the exponent less the fraction length.
   */
  function Stod(w: string): Decimal {
    var a := if |w| > 0 && w[0] == '-' then 1 else 0;
    var intEnd := DigitsEnd(w, a);
    var fracEnd := if intEnd < |w| && w[intEnd] == '.' then DigitsEnd(w, intEnd + 1) else intEnd;
    var fraction := if fracEnd > intEnd then w[intEnd + 1..fracEnd] else [];
    var e := if fracEnd < |w| then fracEnd + 1 else fracEnd;
    var expNeg := e < |w| && w[e] == '-';
    var expStart := if e < |w| && (w[e] == '-' || w[e] == '+') then e + 1 else e;
    var expDigits: int := DigitsValue(w[expStart..]);
    var mantissa: int := DigitsValue(w[a..intEnd] + fraction);
    Decimal(if a == 1 then -mantissa else mantissa, (if expNeg then -expDigits else expDigits) - |fraction|)
  }

  /** The conversion at the end of `LoadNumber`; a failing `stoi` becomes a `ParsingError`. */
  function Convert(w: string, isInt: bool): (r: Result<Node>)
    ensures r.Ok? && isInt ==> r.value.Int? && InIntRange(r.value.i)
    ensures r.Ok? && !isInt ==> r.value.Double?
    ensures r.Err? ==> r.msg == "Failed to convert " + w + " to number"
  {
    if isInt then
      match Stoi(w)
      case Ok(v) => Ok(Int(v))
      case Err(_) => Err("Failed to convert " + w + " to number")
    else Ok(Double(Stod(w)))
  }

  /** `LoadNumber`: the number whose text starts at p, and the position after it. */
  function ParseNumber(t: seq<char>, p: nat): (r: Result<(Node, nat)>)
    requires p <= |t|
    ensures r.Ok? ==> p < r.value.1 <= |t|
  {
    var lexeme :- NumberLexeme(t, p);
    var node :- Convert(t[p..lexeme.end], lexeme.isInt);
    Ok((node, lexeme.end))
  }

  // ---------------------------------------------------------------------------------------
  // Strings (json.cpp:71-130)

  /** The character an escape sequence `\e` stands for, for the five escapes the reader knows. */
  function Unescape(e: char): (r: Option<char>)
    ensures r.Some? <==> e in {'n', 't', 'r', '"', '\\'}
  {
    match e
    case 'n' => Some('\n')
    case 't' => Some('\t')
    case 'r' => Some('\r')
    case '"' => Some('"')
    case '\\' => Some('\\')
    case _ => None
  }

  /** A result with `prefix` put in front of the string it holds. */
  function Prefixed(prefix: string, r: Result<(string, nat)>): Result<(string, nat)> {
    match r
    case Ok((s, q)) => Ok((prefix + s, q))
    case Err(m) => Err(m)
  }

  /**
   * `LoadString`, from the character after the opening quote: raw characters are taken as they
   * are (without skipping whitespace), the five escapes are decoded, and the closing quote ends
   * the string and is consumed.
   */
  function ParseString(t: seq<char>, p: nat): (r: Result<(string, nat)>)
    requires p <= |t|
    ensures r.Ok? ==> p < r.value.1 <= |t|
    decreases |t| - p
  {
    if p == |t| then Err("String parsing error")
    else if t[p] == '"' then Ok(([], p + 1))
    else if t[p] == '\\' then
      if p + 1 == |t| then Err("String parsing error")
      else match Unescape(t[p + 1])
        case None => Err("Unrecognized escape sequence \\" + [t[p + 1]])
        case Some(c) => Prefixed([c], ParseString(t, p + 2))
    else if t[p] == '\n' || t[p] == '\r' then Err("Unexpected end of line")
    else Prefixed([t[p]], ParseString(t, p + 1))
  }

  // ---------------------------------------------------------------------------------------
  // Literals (json.cpp:132-158)

  /**
   * The loop of `LoadNull`: `input >> c` is evaluated before `i < 4`, so after four characters
   * one more is extracted and dropped.
   */
  function NullLoop(t: seq<char>, p: nat, i: nat, s: string): (r: (string, nat))
    requires p <= |t|
    ensures p <= r.1 <= |t|
    ensures |r.0| >= |s| && (|r.0| > |s| ==> r.1 > p)
    decreases |t| - p
  {
    var (c, q) := Extracted(t, p);
    if c.None? || i >= 4 then (s, q) else NullLoop(t, q, i + 1, s + [c.value])
  }

  /** `LoadNull`: the four characters extracted must spell `null`. */
  function ParseNull(t: seq<char>, p: nat): (r: Result<(Node, nat)>)
    requires p <= |t|
    ensures r.Ok? ==> r.value.0 == Null && p < r.value.1 <= |t|
  {
    var (s, q) := NullLoop(t, p, 0, []);
    if s != "null" then Err("Unexpected value") else Ok((Null, q))
  }

  /**
   * The loop of `LoadBool`: extract until an 'e' is read or five characters are collected; the
   * last character extracted stays in `c`, which is kept when an extraction fails.
   */
  function BoolLoop(t: seq<char>, p: nat, s: string, c: Option<char>): (r: (string, Option<char>, nat))
    requires p <= |t|
    ensures p <= r.2 <= |t|
    ensures r.2 > p || (r.0 == s && r.1 == c)
    decreases |t| - p
  {
    var (read, q) := Extracted(t, p);
    if read.None? then (s, c, q)
    else if |s| < 5 && read.value != 'e' then BoolLoop(t, q, s + [read.value], read)
    else (s, read, q)
  }

  /**
   * `LoadBool`: after the loop the last character extracted is appended once more, and the
   * word must then be `true` or `false`. When nothing could be extracted at all, `c` was never
   * assigned; the word then has one character at most and is rejected whatever it holds.
   */
  function ParseBool(t: seq<char>, p: nat): (r: Result<(Node, nat)>)
    requires p <= |t|
    ensures r.Ok? ==> r.value.0.Bool? && p < r.value.1 <= |t|
  {
    var (s, c, q) := BoolLoop(t, p, [], None);
    var word := if c.Some? then s + [c.value] else s;
    if word == "true" then Ok((Bool(true), q))
    else if word == "false" then Ok((Bool(false), q))
    else Err("Unexpected value")
  }

  // ---------------------------------------------------------------------------------------
  // Arrays, dicts and nodes (json.cpp:160-223)

  /**
   * The loop of `LoadArray` from p, with `items` read so far: ']' ends the array; a ',' is
   * dropped and any other character is put back before the next element is read; the end of
   * the input fails with "] not expected".
   */
  function ParseArray(t: seq<char>, p: nat, items: seq<Node>): (r: Result<(Node, nat)>)
    requires p <= |t|
    ensures r.Ok? ==> p < r.value.1 <= |t| && r.value.0.Array? && t[r.value.1 - 1] == ']'
    decreases |t| - p, 3
  {
    var read := Extracted(t, p);
    if read.0.None? then Err("] not expected")
    else if read.0.value == ']' then Ok((Array(items), read.1))
    else
      var element := ParseNode(t, if read.0.value == ',' then read.1 else read.1 - 1);
      if element.Err? then Err(element.msg)
      else ParseArray(t, element.value.1, items + [element.value.0])
  }

  /**
   * The loop of `LoadDict` from p, with `entries` read so far and `c` the last character
   * extracted (None while nothing was): a '}' ends the dict; a ',' makes the loop extract once
   * more; the key is read by `LoadString` from wherever the cursor is, one character is
   * extracted as the colon without being checked, and the value is inserted unless the key is
   * already present. When the input ends, the dict is complete only if the last character
   * extracted was a '}'.
   */
  function ParseDict(t: seq<char>, p: nat, c: Option<char>, entries: map<string, Node>): (r: Result<(Node, nat)>)
    requires p <= |t|
    ensures r.Ok? ==> p <= r.value.1 <= |t| && r.value.0.Dict?
    decreases |t| - p, 3
  {
    var read := Extracted(t, p);
    if read.0.None? then
      if c == Some('}') then Ok((Dict(entries), read.1)) else Err("} not expected")
    else if read.0.value == '}' then Ok((Dict(entries), read.1))
    else
      var read2 := if read.0.value == ',' then Extracted(t, read.1) else read;
      var last := if read2.0.Some? then read2.0 else read.0;
      var key := ParseString(t, read2.1);
      if key.Err? then Err(key.msg)
      else
        var colon := Extracted(t, key.value.1);
        var last' := if colon.0.Some? then colon.0 else last;
        var value := ParseNode(t, colon.1);
        if value.Err? then Err(value.msg)
        else
          var k := key.value.0;
          ParseDict(t, value.value.1, last', if k in entries then entries else entries[k := value.value.0])
  }

  /**
   * `LoadNode`: at the end of the input a null node; otherwise the first character extracted
   * chooses the loader.
   */
  function ParseNode(t: seq<char>, p: nat): (r: Result<(Node, nat)>)
    requires p <= |t|
    ensures r.Ok? ==> p <= r.value.1 <= |t|
    ensures r.Ok? && p < |t| && !IsSpace(t[p]) ==> p < r.value.1
    decreases |t| - p, 2
  {
    var read := Extracted(t, p);
    if read.0.None? then Ok((Null, read.1)) else ParseValue(t, read.1)
  }

  /**
   * The loader chosen by the character just extracted, at q - 1: arrays, dicts and strings
   * start after it; for null, bools and numbers it is put back first.
   */
  function ParseValue(t: seq<char>, q: nat): (r: Result<(Node, nat)>)
    requires 0 < q <= |t|
    ensures r.Ok? ==> q <= r.value.1 <= |t|
    decreases |t| - q + 1, 1
  {
    var c := t[q - 1];
    if c == '[' then ParseArray(t, q, [])
    else if c == '{' then ParseDict(t, q, None, map[])
    else if c == '"' then
      var s := ParseString(t, q);
      if s.Err? then Err(s.msg) else Ok((String(s.value.0), s.value.1))
    else if c == 'n' then ParseNull(t, q - 1)
    else if c == 't' || c == 'f' then ParseBool(t, q - 1)
    else ParseNumber(t, q - 1)
  }

  /** `json::Load`: the document is the first node of the text; what follows it is not read. */
  function ParseDocument(t: seq<char>): Result<Node> {
    match ParseNode(t, 0)
    case Ok((node, _)) => Ok(node)
    case Err(m) => Err(m)
  }

  // ---------------------------------------------------------------------------------------
  // Properties of strings

  /** The reader never finishes a string whose text holds no quote at all. */
  lemma {:induction false} StringUnterminated(t: seq<char>, p: nat)
    requires p <= |t|
    requires forall i :: p <= i < |t| ==> t[i] != '"'
    ensures ParseString(t, p).Err?
    decreases |t| - p
  {
    if p < |t| && t[p] == '\\' && p + 1 < |t| && Unescape(t[p + 1]).Some? {
      StringUnterminated(t, p + 2);
    } else if p < |t| && t[p] != '\\' && t[p] != '\n' && t[p] != '\r' {
      StringUnterminated(t, p + 1);
    }
  }

  /**
   * A raw line feed or carriage return met before any quote or backslash fails with
   * "Unexpected end of line".
   */
  lemma {:induction false} StringRawLineBreak(t: seq<char>, p: nat, k: nat)
    requires p <= k < |t| && (t[k] == '\n' || t[k] == '\r')
    requires forall i :: p <= i < k ==> t[i] != '"' && t[i] != '\\'
    ensures ParseString(t, p) == Err("Unexpected end of line")
    decreases k - p
  {
    if p < k {
      StringRawLineBreak(t, p + 1, k);
    }
  }

  /**
   * The reader stops at the quote that closes the string and consumes it: the character before
   * the returned position is that quote, and nothing after it affects the result.
   */
  lemma {:induction false} StringEndsAtQuote(t: seq<char>, p: nat, u: seq<char>)
    requires p <= |t| && ParseString(t, p).Ok?
    ensures var q := ParseString(t, p).value.1;
      && t[q - 1] == '"'
      && ParseString(t[..q] + u, p) == ParseString(t, p)
    decreases |t| - p
  {
    var q := ParseString(t, p).value.1;
    var t' := t[..q] + u;
    assert forall i :: p <= i < q ==> t'[i] == t[i];
    if t[p] == '\\' {
      StringEndsAtQuote(t, p + 2, u);
    } else if t[p] != '"' {
      StringEndsAtQuote(t, p + 1, u);
    }
  }

  // ---------------------------------------------------------------------------------------
  // Properties of numbers

  /** Every character of a run of digits is a digit. */
  lemma {:induction false} DigitsEndAll(t: seq<char>, p: nat)
    requires p <= |t|
    ensures forall i :: p <= i < DigitsEnd(t, p) ==> IsDigit(t[i])
    decreases |t| - p
  {
    if p < |t| && IsDigit(t[p]) {
      DigitsEndAll(t, p + 1);
    }
  }

  /**
   * The states of a recogniser for the JSON number grammar of section 6 of RFC 8259, used as a
   * reference for the text `LoadNumber` accepts.
   */
  datatype NumberState = Start | Minus | Zero | Integer | Dot | Fraction | Mark | Sign | Exponent | Reject

  function NumberStep(st: NumberState, c: char): NumberState {
    match st
    case Start => if c == '-' then Minus else if c == '0' then Zero else if IsDigit(c) then Integer else Reject
    case Minus => if c == '0' then Zero else if IsDigit(c) then Integer else Reject
    case Zero => if c == '.' then Dot else if c == 'e' || c == 'E' then Mark else Reject
    case Integer =>
      if IsDigit(c) then Integer else if c == '.' then Dot else if c == 'e' || c == 'E' then Mark else Reject
    case Dot => if IsDigit(c) then Fraction else Reject
    case Fraction => if IsDigit(c) then Fraction else if c == 'e' || c == 'E' then Mark else Reject
    case Mark => if c == '+' || c == '-' then Sign else if IsDigit(c) then Exponent else Reject
    case Sign => if IsDigit(c) then Exponent else Reject
    case Exponent => if IsDigit(c) then Exponent else Reject
    case Reject => Reject
  }

  function NumberRun(st: NumberState, w: seq<char>): NumberState
    decreases |w|
  {
    if |w| == 0 then st else NumberRun(NumberStep(st, w[0]), w[1..])
  }

  /** A complete number: a state reached after at least one digit of each part begun. */
  predicate Accepting(st: NumberState) {
    st == Zero || st == Integer || st == Fraction || st == Exponent
  }

  lemma {:induction false} NumberRunJoin(st: NumberState, a: seq<char>, b: seq<char>)
    ensures NumberRun(st, a + b) == NumberRun(NumberRun(st, a), b)
    decreases |a|
  {
    if |a| > 0 {
      assert (a + b)[0] == a[0];
      assert (a + b)[1..] == a[1..] + b;
      NumberRunJoin(NumberStep(st, a[0]), a[1..], b);
    } else {
      assert a + b == b;
    }
  }

  /** Digits keep the recogniser in a digit-run state. */
  lemma {:induction false} NumberRunDigits(st: NumberState, w: seq<char>)
    requires st == Integer || st == Fraction || st == Exponent
    requires forall i :: 0 <= i < |w| ==> IsDigit(w[i])
    ensures NumberRun(st, w) == st
    decreases |w|
  {
    if |w| > 0 {
      NumberRunDigits(st, w[1..]);
    }
  }

  /** A run of one or more digits taken from `from`, which a first digit sends to `to`. */
  lemma DigitRunStep(t: seq<char>, p: nat, from: NumberState, to: NumberState)
    requires p < |t| && IsDigit(t[p]) && NumberStep(from, t[p]) == to
    requires to == Integer || to == Fraction || to == Exponent
    ensures NumberRun(from, t[p..DigitsEnd(t, p)]) == to
  {
    DigitsEndAll(t, p);
    var q := DigitsEnd(t, p);
    assert t[p..q][1..] == t[p + 1..q];
    NumberRunDigits(to, t[p + 1..q]);
  }

  /** The optional sign takes the recogniser from `Start` to `Minus`. */
  lemma SignRun(t: seq<char>, p: nat)
    requires p <= |t|
    ensures var p1 := if p < |t| && t[p] == '-' then p + 1 else p;
      NumberRun(Start, t[p..p1]) == if p1 > p then Minus else Start
  {
    if p < |t| && t[p] == '-' {
      assert t[p..p + 1] == [t[p]];
      assert [t[p]][1..] == [];
    } else {
      assert t[p..p] == [];
    }
  }

  /** The integer part: a lone '0', or digits starting with 1-9. */
  lemma IntegerRun(t: seq<char>, p: nat, st: NumberState)
    requires p <= |t| && IntegerEnd(t, p).Ok? && (st == Start || st == Minus)
    ensures NumberRun(st, t[p..IntegerEnd(t, p).value]) == if t[p] == '0' then Zero else Integer
  {
    if t[p] == '0' {
      assert t[p..p + 1] == [t[p]];
      assert [t[p]][1..] == [];
    } else {
      DigitRunStep(t, p, st, Integer);
    }
  }

  /** The fraction, when there is one, ends in `Fraction`; otherwise the state is unchanged. */
  lemma FractionRun(t: seq<char>, p: nat, st: NumberState)
    requires p <= |t| && FractionEnd(t, p).Ok? && (st == Zero || st == Integer)
    ensures var q := FractionEnd(t, p).value;
      NumberRun(st, t[p..q]) == if q > p then Fraction else st
  {
    var q := FractionEnd(t, p).value;
    if q > p {
      assert t[p..q] == [t[p]] + t[p + 1..q];
      NumberRunJoin(st, [t[p]], t[p + 1..q]);
      assert [t[p]][1..] == [];
      DigitRunStep(t, p + 1, Dot, Fraction);
    } else {
      assert t[p..q] == [];
    }
  }

  /** The exponent, when there is one, ends in `Exponent`; otherwise the state is unchanged. */
  lemma ExponentRun(t: seq<char>, p: nat, st: NumberState)
    requires p <= |t| && ExponentEnd(t, p).Ok? && (st == Zero || st == Integer || st == Fraction)
    ensures var q := ExponentEnd(t, p).value;
      NumberRun(st, t[p..q]) == if q > p then Exponent else st
  {
    var q := ExponentEnd(t, p).value;
    if q > p {
      if t[p + 1] == '+' || t[p + 1] == '-' {
        assert t[p..q] == [t[p], t[p + 1]] + t[p + 2..q];
        NumberRunJoin(st, [t[p], t[p + 1]], t[p + 2..q]);
        assert [t[p], t[p + 1]][1..][1..] == [];
        DigitRunStep(t, p + 2, Sign, Exponent);
      } else {
        assert t[p..q] == [t[p]] + t[p + 1..q];
        NumberRunJoin(st, [t[p]], t[p + 1..q]);
        assert [t[p]][1..] == [];
        DigitRunStep(t, p + 1, Mark, Exponent);
      }
    } else {
      assert t[p..q] == [];
    }
  }

  /** Running over a slice is running over its two halves in turn. */
  lemma NumberRunSplit(st: NumberState, t: seq<char>, a: nat, b: nat, c: nat)
    requires a <= b <= c <= |t|
    ensures NumberRun(st, t[a..c]) == NumberRun(NumberRun(st, t[a..b]), t[b..c])
  {
    assert t[a..c] == t[a..b] + t[b..c];
    NumberRunJoin(st, t[a..b], t[b..c]);
  }

  /** The text `LoadNumber` collects is a number of the reference grammar. */
  lemma NumberLexemeGrammar(t: seq<char>, p: nat)
    requires p <= |t| && NumberLexeme(t, p).Ok?
    ensures var run := NumberRun(Start, t[p..NumberLexeme(t, p).value.end]);
      Accepting(run) && (NumberLexeme(t, p).value.isInt <==> run == Zero || run == Integer)
  {
    var p1 := if p < |t| && t[p] == '-' then p + 1 else p;
    var p2 := IntegerEnd(t, p1).value;
    var p3 := FractionEnd(t, p2).value;
    var p4 := ExponentEnd(t, p3).value;
    SignRun(t, p);
    var s1 := NumberRun(Start, t[p..p1]);
    IntegerRun(t, p1, s1);
    NumberRunSplit(Start, t, p, p1, p2);
    var s2 := NumberRun(Start, t[p..p2]);
    FractionRun(t, p2, s2);
    NumberRunSplit(Start, t, p, p2, p3);
    var s3 := NumberRun(Start, t[p..p3]);
    ExponentRun(t, p3, s3);
    NumberRunSplit(Start, t, p, p3, p4);
  }

  /**
   * Every failure of the number lexer is a missing digit: where the integer part, the digits
   * after '.' or the digits of the exponent should begin.
   */
  lemma NumberNeedsDigits(t: seq<char>, p: nat)
    requires p <= |t|
    ensures NumberLexeme(t, p).Err? ==> NumberLexeme(t, p).msg == "A digit is expected"
    ensures var p1 := if p < |t| && t[p] == '-' then p + 1 else p;
      (p1 == |t| || !IsDigit(t[p1])) ==> NumberLexeme(t, p) == Err("A digit is expected")
    ensures forall q :: (p < q < |t| && t[q] == '.' && (q + 1 == |t| || !IsDigit(t[q + 1])) &&
                         IntegerEnd(t, if t[p] == '-' then p + 1 else p) == Ok(q)) ==>
      NumberLexeme(t, p) == Err("A digit is expected")
  {
  }

  // ---------------------------------------------------------------------------------------
  // Properties of literals

  /**
   * The characters k successive `input >> c` extract from p, each after skipping whitespace,
   * stopping early at the end of the input, and the position after them.
   */
  function Tokens(t: seq<char>, p: nat, k: nat): (r: (string, nat))
    requires p <= |t|
    ensures p <= r.1 <= |t| && |r.0| <= k
    decreases k
  {
    if k == 0 then ([], p)
    else
      var read := Extracted(t, p);
      if read.0.None? then ([], read.1)
      else
        var rest := Tokens(t, read.1, k - 1);
        ([read.0.value] + rest.0, rest.1)
  }

  /** One step of `Tokens`: the first extraction, then the rest. */
  lemma TokensStep(t: seq<char>, p: nat, k: nat)
    requires p <= |t| && k > 0
    ensures var read := Extracted(t, p);
      Tokens(t, p, k) ==
        if read.0.None? then ([], read.1)
        else ([read.0.value] + Tokens(t, read.1, k - 1).0, Tokens(t, read.1, k - 1).1)
  {
  }

  lemma {:induction false} NullLoopTokens(t: seq<char>, p: nat, i: nat, s: string)
    requires p <= |t| && i <= 4
    ensures NullLoop(t, p, i, s) == (s + Tokens(t, p, 4 - i).0, Tokens(t, p, 5 - i).1)
    decreases |t| - p
  {
    var read := Extracted(t, p);
    if read.0.None? || i >= 4 {
      assert s + [] == s;
    } else {
      NullLoopTokens(t, read.1, i + 1, s + [read.0.value]);
      assert s + [read.0.value] + Tokens(t, read.1, 3 - i).0 == s + ([read.0.value] + Tokens(t, read.1, 3 - i).0);
    }
  }

  /**
   * `LoadNull` accepts exactly when the first four characters extracted spell `null`, and then
   * it has consumed a fifth one as well.
   */
  lemma NullOnlyNull(t: seq<char>, p: nat)
    requires p <= |t|
    ensures ParseNull(t, p) ==
      if Tokens(t, p, 4).0 == "null" then Ok((Null, Tokens(t, p, 5).1)) else Err("Unexpected value")
  {
    NullLoopTokens(t, p, 0, []);
    assert [] + Tokens(t, p, 4).0 == Tokens(t, p, 4).0;
  }

  /**
   * When the loop of `LoadBool` extracts the characters of w, none of them an 'e', and then an
   * 'e', it stops right after the 'e' holding it as the last character.
   */
  lemma {:induction false} BoolLoopReads(t: seq<char>, p: nat, s: string, c: Option<char>, w: string)
    requires p <= |t| && |s| + |w| <= 5
    requires forall i :: 0 <= i < |w| ==> w[i] != 'e'
    requires Tokens(t, p, |w| + 1).0 == w + ['e']
    ensures BoolLoop(t, p, s, c) == (s + w, Some('e'), Tokens(t, p, |w| + 1).1)
    decreases |w|
  {
    var read := Extracted(t, p);
    TokensStep(t, p, |w| + 1);
    var rest := Tokens(t, read.1, |w|);
    assert read.0.Some? && [read.0.value] + rest.0 == w + ['e'];
    assert read.0.value == (w + ['e'])[0];
    if |w| == 0 {
      assert s + w == s;
    } else {
      assert rest.0 == ([read.0.value] + rest.0)[1..] == w[1..] + ['e'];
      BoolLoopReads(t, read.1, s + [w[0]], read.0, w[1..]);
      assert s + [w[0]] + w[1..] == s + w;
    }
  }

  /**
   * What the loop of `LoadBool` stops on: when it ends holding an 'e' (and collected none), what
   * it collected followed by that 'e' is exactly what it extracted.
   */
  lemma {:induction false} BoolLoopStops(t: seq<char>, p: nat, s: string, c: Option<char>)
    requires p <= |t|
    requires c.None? <==> s == []
    requires c.Some? ==> c.value == s[|s| - 1] && c.value != 'e'
    ensures var r := BoolLoop(t, p, s, c); r.1.None? ==> r.0 == s && c.None?
    ensures var r := BoolLoop(t, p, s, c);
      r.1 == Some('e') ==>
        (|s| <= |r.0| && s + Tokens(t, p, |r.0| - |s| + 1).0 == r.0 + ['e'] &&
         Tokens(t, p, |r.0| - |s| + 1).1 == r.2)
    decreases |t| - p
  {
    var read := Extracted(t, p);
    if read.0.None? {
    } else if |s| < 5 && read.0.value != 'e' {
      var s' := s + [read.0.value];
      BoolLoopStops(t, read.1, s', read.0);
      var r := BoolLoop(t, p, s, c);
      if r.1 == Some('e') {
        var k := |r.0| - |s'| + 1;
        assert Tokens(t, p, k + 1).0 == [read.0.value] + Tokens(t, read.1, k).0;
        assert s + ([read.0.value] + Tokens(t, read.1, k).0) == s' + Tokens(t, read.1, k).0;
      }
    } else {
      assert Tokens(t, p, 1).0 == [read.0.value];
      assert s + [] == s;
    }
  }

  lemma BoolReadsTrue(t: seq<char>, p: nat)
    requires p <= |t| && Tokens(t, p, 4).0 == "true"
    ensures ParseBool(t, p) == Ok((Bool(true), Tokens(t, p, 4).1))
  {
    BoolLoopReads(t, p, [], None, "tru");
    assert [] + "tru" + ['e'] == "true";
  }

  lemma BoolReadsFalse(t: seq<char>, p: nat)
    requires p <= |t| && Tokens(t, p, 5).0 == "false"
    ensures ParseBool(t, p) == Ok((Bool(false), Tokens(t, p, 5).1))
  {
    BoolLoopReads(t, p, [], None, "fals");
    assert [] + "fals" + ['e'] == "false";
  }

  /** A word `LoadBool` accepts was extracted as it stands. */
  lemma BoolAcceptsOnlyWords(t: seq<char>, p: nat)
    requires p <= |t|
    ensures ParseBool(t, p).Ok? ==> Tokens(t, p, 4).0 == "true" || Tokens(t, p, 5).0 == "false"
  {
    var r := BoolLoop(t, p, [], None);
    BoolLoopStops(t, p, [], None);
    if r.1.Some? {
      var word := r.0 + [r.1.value];
      assert r.1.value == word[|word| - 1];
      assert [] + Tokens(t, p, |r.0| + 1).0 == Tokens(t, p, |r.0| + 1).0;
    }
  }

  /**
   * `LoadBool` accepts exactly `true` (four characters extracted) and `false` (five), and fails
   * with "Unexpected value" otherwise.
   */
  lemma BoolOnlyTrueFalse(t: seq<char>, p: nat)
    requires p <= |t|
    ensures ParseBool(t, p) ==
      if Tokens(t, p, 4).0 == "true" then Ok((Bool(true), Tokens(t, p, 4).1))
      else if Tokens(t, p, 5).0 == "false" then Ok((Bool(false), Tokens(t, p, 5).1))
      else Err("Unexpected value")
  {
    if Tokens(t, p, 4).0 == "true" {
      BoolReadsTrue(t, p);
    } else if Tokens(t, p, 5).0 == "false" {
      BoolReadsFalse(t, p);
    } else {
      BoolAcceptsOnlyWords(t, p);
    }
  }

  // ---------------------------------------------------------------------------------------
  // Properties of arrays and dicts

  /** A result holding an array with `prefix` put in front of its items. */
  function ItemsPrefixed(prefix: seq<Node>, r: Result<(Node, nat)>): Result<(Node, nat)>
    requires r.Ok? ==> r.value.0.Array?
  {
    if r.Ok? then Ok((Array(prefix + r.value.0.items), r.value.1)) else r
  }

  /**
   * The array loop appends the elements it reads, in order, after those read before: its result
   * does not depend on them other than by having them in front.
   */
  lemma {:induction false} ArrayAppendsInOrder(t: seq<char>, p: nat, a: seq<Node>, b: seq<Node>)
    requires p <= |t|
    ensures ParseArray(t, p, a + b) == ItemsPrefixed(a, ParseArray(t, p, b))
    decreases |t| - p
  {
    var read := Extracted(t, p);
    if read.0.Some? && read.0.value != ']' {
      var element := ParseNode(t, if read.0.value == ',' then read.1 else read.1 - 1);
      if element.Ok? {
        ArrayAppendsInOrder(t, element.value.1, a, b + [element.value.0]);
        assert a + b + [element.value.0] == a + (b + [element.value.0]);
      }
    }
  }

  lemma SkipSpaceTwice(t: seq<char>, p: nat)
    requires p <= |t|
    ensures SkipSpace(t, SkipSpace(t, p)) == SkipSpace(t, p)
  {
  }

  /** Extraction skips whitespace first, so it may as well start after it. */
  lemma ExtractedAfterSpace(t: seq<char>, p: nat)
    requires p <= |t|
    ensures Extracted(t, p) == Extracted(t, SkipSpace(t, p))
  {
    SkipSpaceTwice(t, p);
  }

  /** Reading a node skips whitespace first, so it may as well start after it. */
  lemma NodeAfterSpace(t: seq<char>, p: nat)
    requires p <= |t|
    ensures ParseNode(t, p) == ParseNode(t, SkipSpace(t, p))
  {
    ExtractedAfterSpace(t, p);
  }

  /**
   * A comma before an element is a separator that may be left out: reading the array from
   * before the comma and from after it gives the same result.
   */
  lemma ArrayCommaSkippable(t: seq<char>, p: nat, items: seq<Node>)
    requires p <= |t| && Extracted(t, p).0 == Some(',')
    requires var next := Extracted(t, Extracted(t, p).1).0; next.Some? && next.value != ']' && next.value != ','
    ensures ParseArray(t, p, items) == ParseArray(t, Extracted(t, p).1, items)
  {
    var q := Extracted(t, p).1;
    NodeAfterSpace(t, q);
  }

  /** A key once in the dict keeps the value it was first given: a repeated key is ignored. */
  lemma {:induction false} DictKeepsFirst(t: seq<char>, p: nat, c: Option<char>, entries: map<string, Node>)
    requires p <= |t|
    ensures var r := ParseDict(t, p, c, entries);
      r.Ok? ==> forall k :: k in entries ==> k in r.value.0.entries && r.value.0.entries[k] == entries[k]
    decreases |t| - p
  {
    var read := Extracted(t, p);
    if read.0.Some? && read.0.value != '}' {
      var read2 := if read.0.value == ',' then Extracted(t, read.1) else read;
      var last := if read2.0.Some? then read2.0 else read.0;
      var key := ParseString(t, read2.1);
      if key.Ok? {
        var colon := Extracted(t, key.value.1);
        var last' := if colon.0.Some? then colon.0 else last;
        var value := ParseNode(t, colon.1);
        if value.Ok? {
          var k := key.value.0;
          DictKeepsFirst(t, value.value.1, last', if k in entries then entries else entries[k := value.value.0]);
        }
      }
    }
  }
}
