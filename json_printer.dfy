/**
 * The writing side of json.cpp: the print context with its indentation, the string printer
 * with its escapes, and the printing of ints. Each printer appends to an output stream,
 * modelled as a `Writer` holding everything written so far; what is written is specified by a
 * function of the value, and the reader of json_parser.dfy is shown to read it back.
 */
module JsonPrinter {
  import opened Wrappers
  import opened Json
  import opened JsonParser

  /** The output stream: the text written to it so far. */
  class Writer {
    var written: string

    constructor()
      ensures written == []
    {
      written := [];
    }

    /** `out.put(c)` and `out << c`. */
    method Put(c: char)
      modifies this
      ensures written == old(written) + [c]
    {
      written := written + [c];
    }

    /** `out << s` for a string or a string view. */
    method PutAll(s: string)
      modifies this
      ensures written == old(written) + s
    {
      written := written + s;
    }
  }

  /** `PrintContext`: the stream, the indentation step (4 by default) and the current indent. */
  datatype PrintContext = PrintContext(out: Writer, indentStep: int, indent: int)

  /** A context for printing one level deeper: the indent grows by one step. */
  function Indented(ctx: PrintContext): (r: PrintContext)
    ensures r.out == ctx.out && r.indentStep == ctx.indentStep
    ensures r.indent - ctx.indent == ctx.indentStep
  {
    PrintContext(ctx.out, ctx.indentStep, ctx.indentStep + ctx.indent)
  }

  /** The context k levels deeper. */
  function IndentedTimes(ctx: PrintContext, k: nat): PrintContext
    decreases k
  {
    if k == 0 then ctx else Indented(IndentedTimes(ctx, k - 1))
  }

  /** Nesting k levels deep indents by k steps and keeps the stream and the step. */
  lemma {:induction false} IndentedTimesIndent(ctx: PrintContext, k: nat)
    ensures IndentedTimes(ctx, k).out == ctx.out && IndentedTimes(ctx, k).indentStep == ctx.indentStep
    ensures IndentedTimes(ctx, k).indent == ctx.indent + k * ctx.indentStep
    decreases k
  {
    if k > 0 {
      IndentedTimesIndent(ctx, k - 1);
    }
  }

  /** n spaces, none for a negative n. */
  function Spaces(n: int): (r: string)
    ensures |r| == if n > 0 then n else 0
    ensures forall i :: 0 <= i < |r| ==> r[i] == ' '
    decreases n
  {
    if n <= 0 then [] else Spaces(n - 1) + [' ']
  }

  /** `PrintContext::PrintIndent`: one space per unit of the current indent. */
  method PrintIndent(ctx: PrintContext)
    modifies ctx.out
    ensures ctx.out.written == old(ctx.out.written) + Spaces(ctx.indent)
  {
    var i := 0;
    while i < ctx.indent
      invariant 0 <= i <= if ctx.indent > 0 then ctx.indent else 0
      invariant ctx.out.written == old(ctx.out.written) + Spaces(i)
      decreases ctx.indent - i
    {
      ctx.out.Put(' ');
      i := i + 1;
    }
  }

  // ---------------------------------------------------------------------------------------
  // Strings (json.cpp:332-357)

  /**
   * How the string printer writes one character: a quote, a line feed, a carriage return and a
   * backslash are escaped; a tab, like every other character, is written as it is.
   */
  function EscapeChar(c: char): (r: string)
    ensures 1 <= |r| <= 2
    ensures |r| == 2 <==> c in {'"', '\n', '\r', '\\'}
    ensures |r| == 2 ==> r[0] == '\\' && Unescape(r[1]) == Some(c)
    ensures |r| == 1 ==> r == [c]
  {
    match c
    case '"' => "\\\""
    case '\n' => "\\n"
    case '\r' => "\\r"
    case '\\' => "\\\\"
    case _ => [c]
  }

  /** The body of a printed string: each character written by `EscapeChar`. */
  function Escaped(s: string): string
    decreases |s|
  {
    if |s| == 0 then [] else EscapeChar(s[0]) + Escaped(s[1..])
  }

  /** A printed string: the escaped body between two quotes. */
  function Quoted(s: string): string {
    ['"'] + Escaped(s) + ['"']
  }

  lemma {:induction false} EscapedAppend(a: string, b: string)
    ensures Escaped(a + b) == Escaped(a) + Escaped(b)
    decreases |a|
  {
    if |a| == 0 {
      assert a + b == b;
    } else {
      assert (a + b)[0] == a[0];
      assert (a + b)[1..] == a[1..] + b;
      EscapedAppend(a[1..], b);
    }
  }

  /** The string `PrintValue`: an opening quote, each character escaped, a closing quote. */
  method PrintString(ctx: PrintContext, value: string)
    modifies ctx.out
    ensures ctx.out.written == old(ctx.out.written) + Quoted(value)
  {
    ctx.out.Put('"');
    for i := 0 to |value|
      invariant ctx.out.written == old(ctx.out.written) + ['"'] + Escaped(value[..i])
    {
      var c := value[i];
      if c == '"' {
        ctx.out.PutAll("\\\"");
      } else if c == '\n' {
        ctx.out.PutAll("\\n");
      } else if c == '\t' {
        ctx.out.PutAll("\t");
      } else if c == '\r' {
        ctx.out.PutAll("\\r");
      } else if c == '\\' {
        ctx.out.PutAll("\\\\");
      } else {
        ctx.out.Put(c);
      }
      EscapedAppend(value[..i], [c]);
      assert value[..i + 1] == value[..i] + [c];
      assert Escaped([c]) == EscapeChar(c) + Escaped([]);
    }
    assert value[..|value|] == value;
    ctx.out.Put('"');
  }

  /**
   * The string reader reads an escaped body back to the string it came from, stopping right
   * after the closing quote, wherever in the text the body starts.
   */
  lemma {:induction false} EscapedReadsBack(u: string, s: string, rest: string)
    ensures ParseString(u + Escaped(s) + ['"'] + rest, |u|) == Ok((s, |u| + |Escaped(s)| + 1))
    decreases |s|
  {
    var t := u + Escaped(s) + ['"'] + rest;
    if |s| == 0 {
      assert t[|u|] == '"';
    } else {
      var e := EscapeChar(s[0]);
      assert t == (u + e) + Escaped(s[1..]) + ['"'] + rest;
      EscapedReadsBack(u + e, s[1..], rest);
      assert t[|u|] == e[0];
      if |e| == 2 {
        assert t[|u| + 1] == e[1];
      }
      assert [s[0]] + s[1..] == s;
    }
  }

  /**
   * What the string printer writes, the reader reads back as the same string node, whatever
   * follows it.
   */
  lemma PrintedStringReadsBack(s: string, rest: string)
    ensures ParseNode(Quoted(s) + rest, 0) == Ok((String(s), |Quoted(s)|))
  {
    var t := Quoted(s) + rest;
    EscapedReadsBack(['"'], s, rest);
    assert t == ['"'] + Escaped(s) + ['"'] + rest;
    assert Extracted(t, 0) == (Some('"'), 1);
  }

  // ---------------------------------------------------------------------------------------
  // Ints (json.cpp:359-363)

  function DigitChar(d: nat): (c: char)
    requires d < 10
    ensures IsDigit(c) && DigitOf(c) == d
  {
    ('0' as int + d) as char
  }

  /** The decimal digits of n, without leading zeros. */
  function NatText(n: nat): (r: string)
    ensures |r| > 0 && forall k :: 0 <= k < |r| ==> IsDigit(r[k])
    ensures r[0] == '0' <==> n == 0
    ensures n == 0 ==> r == "0"
    decreases n
  {
    if n < 10 then [DigitChar(n)] else NatText(n / 10) + [DigitChar(n % 10)]
  }

  /** How `out << value` writes an int: a '-' for a negative value, then its digits. */
  function IntText(i: int): string {
    if i < 0 then ['-'] + NatText(-i) else NatText(i)
  }

  /** The value of the digits of n is n. */
  lemma {:induction false} NatTextValue(n: nat)
    ensures DigitsValue(NatText(n)) == n
    decreases n
  {
    var w := NatText(n);
    if n >= 10 {
      NatTextValue(n / 10);
      assert w[..|w| - 1] == NatText(n / 10);
    }
  }

  /** A run of digits from p that stops at q ends at q. */
  lemma {:induction false} DigitsEndAt(t: seq<char>, p: nat, q: nat)
    requires p <= q <= |t|
    requires forall k :: p <= k < q ==> IsDigit(t[k])
    requires q == |t| || !IsDigit(t[q])
    ensures DigitsEnd(t, p) == q
    decreases q - p
  {
    if p < q {
      DigitsEndAt(t, p + 1, q);
    }
  }

  /** `std::stoi` reads the text of an int back to it exactly when it fits 32 bits. */
  lemma StoiIntText(i: int)
    ensures Stoi(IntText(i)) == if InIntRange(i) then Ok(i) else Err("out of range")
  {
    var w := IntText(i);
    if i < 0 {
      assert w[1..] == NatText(-i);
      NatTextValue(-i);
    } else {
      NatTextValue(i);
    }
  }

  /** A character that cannot continue the text of an int. */
  predicate EndsNumber(rest: string) {
    |rest| == 0 || !(IsDigit(rest[0]) || rest[0] == '.' || rest[0] == 'e' || rest[0] == 'E')
  }

  /** The number lexer takes exactly the text of an int, and tags it as an int. */
  lemma IntTextLexeme(i: int, rest: string)
    requires EndsNumber(rest)
    ensures NumberLexeme(IntText(i) + rest, 0) == Ok(Lexeme(|IntText(i)|, true))
  {
    var t := IntText(i) + rest;
    var w := IntText(i);
    var p1 := if i < 0 then 1 else 0;
    assert t[0] == w[0];
    assert forall k :: p1 <= k < |w| ==> t[k] == w[k] && IsDigit(t[k]);
    assert |w| < |t| ==> t[|w|] == rest[0];
    if i != 0 {
      DigitsEndAt(t, p1, |w|);
    }
  }

  /**
   * What the int printer writes, the reader reads back as the same int node when it fits 32
   * bits, and rejects with the conversion message when it does not.
   */
  lemma PrintedIntReadsBack(i: int, rest: string)
    requires EndsNumber(rest)
    ensures ParseNode(IntText(i) + rest, 0) ==
      if InIntRange(i) then Ok((Int(i), |IntText(i)|))
      else Err("Failed to convert " + IntText(i) + " to number")
  {
    var t := IntText(i) + rest;
    var w := IntText(i);
    IntTextLexeme(i, rest);
    StoiIntText(i);
    assert t[..|w|] == w;
    assert t[0] == w[0] && !IsSpace(t[0]);
    assert Extracted(t, 0) == (Some(t[0]), 1);
  }

  /** The `PrintValue` for ints. */
  method PrintInt(ctx: PrintContext, value: int)
    modifies ctx.out
    ensures ctx.out.written == old(ctx.out.written) + IntText(value)
  {
    ctx.out.PutAll(IntText(value));
  }
}
