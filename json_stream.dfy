/**
 * The loaders of json.cpp as they run: methods over an input stream with a cursor, each proved
 * to compute the corresponding parsing function of JsonParser.
 */
module JsonStream {
  import opened Wrappers
  import opened Json
  import opened JsonParser

  /**
   * A `std::istream` over a text: the stream's bytes, one character per byte (0-255), so
   * UTF-8 input appears byte by byte and every `get`, `peek` and `>>` takes one byte. The stream's error flags are not modelled: an extraction
   * fails only at the end of the input, and every later read finds the end there as well.
   */
  class Stream {
    const text: seq<char>
    var pos: nat

    ghost predicate Valid()
      reads this
    {
      pos <= |text|
    }

    constructor (text: seq<char>)
      ensures this.text == text && pos == 0 && Valid()
    {
      this.text := text;
      pos := 0;
    }

    /** `input >> c`. */
    method Extract() returns (c: Option<char>)
      requires Valid()
      modifies this
      ensures Valid()
      ensures (c, pos) == Extracted(text, old(pos))
    {
      while pos < |text| && IsSpace(text[pos])
        invariant pos <= |text|
        invariant SkipSpace(text, old(pos)) == SkipSpace(text, pos)
        decreases |text| - pos
      {
        pos := pos + 1;
      }
      if pos == |text| {
        c := None;
      } else {
        c := Some(text[pos]);
        pos := pos + 1;
      }
    }

    /** `input.peek()` or `*it` of an `istreambuf_iterator`: the next raw character, if any. */
    method Peek() returns (c: Option<char>)
      requires Valid()
      ensures c == if pos < |text| then Some(text[pos]) else None
    {
      c := if pos < |text| then Some(text[pos]) else None;
    }

    /** `input.get()` or `++it`: take the next raw character. */
    method Get() returns (c: char)
      requires Valid() && pos < |text|
      modifies this
      ensures Valid() && pos == old(pos) + 1 && c == text[old(pos)]
    {
      c := text[pos];
      pos := pos + 1;
    }

    /** `input.putback(c)` right after `c` was extracted. */
    method Putback()
      requires Valid() && 0 < pos
      modifies this
      ensures Valid() && pos == old(pos) - 1
    {
      pos := pos - 1;
    }
  }

  /**
   * A loader's result agrees with a parsing function: the same node and the cursor after it, or
   * the same message.
   */
  predicate Agrees(r: Result<Node>, spec: Result<(Node, nat)>, pos: nat) {
    if spec.Ok? then r == Ok(spec.value.0) && pos == spec.value.1 else r == Err(spec.msg)
  }

  /** The same for a string: the same string and the cursor after it, or the same message. */
  predicate AgreesString(r: Result<string>, spec: Result<(string, nat)>, pos: nat) {
    if spec.Ok? then r == Ok(spec.value.0) && pos == spec.value.1 else r == Err(spec.msg)
  }

  /** Two adjacent slices of a text together make the slice that spans both. */
  lemma SliceJoin(t: seq<char>, a: nat, b: nat, c: nat)
    requires a <= b <= c <= |t|
    ensures t[a..b] + t[b..c] == t[a..c]
    ensures a == b ==> t[a..b] == []
  {
    assert forall i :: 0 <= i < c - a ==> (t[a..b] + t[b..c])[i] == t[a..c][i];
  }

  /** `read_digits`, appending to `parsed`. */
  method ReadDigits(s: Stream, parsed: string) returns (r: Result<string>)
    requires s.Valid()
    modifies s
    ensures s.Valid()
    ensures var spec := DigitsAt(s.text, old(s.pos));
      && (r.Ok? <==> spec.Ok?)
      && (r.Ok? ==> s.pos == spec.value && r.value == parsed + s.text[old(s.pos)..s.pos])
      && (r.Err? ==> r.msg == spec.msg)
  {
    var c := s.Peek();
    if c.None? || !IsDigit(c.value) {
      return Err("A digit is expected");
    }
    var acc := parsed;
    ghost var p0 := s.pos;
    while c.Some? && IsDigit(c.value)
      invariant s.Valid() && p0 <= s.pos
      invariant DigitsEnd(s.text, p0) == DigitsEnd(s.text, s.pos)
      invariant acc == parsed + s.text[p0..s.pos]
      invariant c == if s.pos < |s.text| then Some(s.text[s.pos]) else None
      decreases |s.text| - s.pos
    {
      var ch := s.Get();
      acc := acc + [ch];
      c := s.Peek();
    }
    r := Ok(acc);
  }

  /** The integer part of `LoadNumber`: a lone '0' or `read_digits`. */
  method ReadInteger(s: Stream, parsed: string) returns (r: Result<string>)
    requires s.Valid()
    modifies s
    ensures s.Valid()
    ensures var spec := IntegerEnd(s.text, old(s.pos));
      && (r.Ok? <==> spec.Ok?)
      && (r.Ok? ==> s.pos == spec.value && r.value == parsed + s.text[old(s.pos)..s.pos])
      && (r.Err? ==> r.msg == spec.msg)
  {
    var c := s.Peek();
    if c == Some('0') {
      var ch := s.Get();
      r := Ok(parsed + [ch]);
    } else {
      r := ReadDigits(s, parsed);
    }
  }

  /** The fraction of `LoadNumber`: if a '.' follows, it and `read_digits`. */
  method ReadFraction(s: Stream, parsed: string) returns (r: Result<string>, found: bool)
    requires s.Valid()
    modifies s
    ensures s.Valid()
    ensures var spec := FractionEnd(s.text, old(s.pos));
      && (r.Ok? <==> spec.Ok?)
      && (r.Ok? ==> s.pos == spec.value && r.value == parsed + s.text[old(s.pos)..s.pos])
      && (r.Err? ==> r.msg == spec.msg)
    ensures r.Ok? ==> (found <==> s.pos > old(s.pos))
  {
    var c := s.Peek();
    if c == Some('.') {
      var ch := s.Get();
      r := ReadDigits(s, parsed + [ch]);
      found := true;
    } else {
      r, found := Ok(parsed), false;
    }
  }

  /** The exponent of `LoadNumber`: if an 'e' or 'E' follows, it, an optional sign and `read_digits`. */
  method ReadExponent(s: Stream, parsed: string) returns (r: Result<string>, found: bool)
    requires s.Valid()
    modifies s
    ensures s.Valid()
    ensures var spec := ExponentEnd(s.text, old(s.pos));
      && (r.Ok? <==> spec.Ok?)
      && (r.Ok? ==> s.pos == spec.value && r.value == parsed + s.text[old(s.pos)..s.pos])
      && (r.Err? ==> r.msg == spec.msg)
    ensures r.Ok? ==> (found <==> s.pos > old(s.pos))
  {
    ghost var p0 := s.pos;
    var c := s.Peek();
    if c == Some('e') || c == Some('E') {
      var ch := s.Get();
      var acc := parsed + [ch];
      assert s.text[p0..s.pos] == [ch];
      c := s.Peek();
      if c == Some('+') || c == Some('-') {
        ch := s.Get();
        SliceJoin(s.text, p0, p0 + 1, s.pos);
        assert s.text[p0 + 1..s.pos] == [ch];
        acc := acc + [ch];
      }
      ghost var q := s.pos;
      assert ExponentEnd(s.text, p0) == DigitsAt(s.text, q);
      r := ReadDigits(s, acc);
      if r.Ok? {
        SliceJoin(s.text, p0, q, s.pos);
      }
      found := true;
    } else {
      r, found := Ok(parsed), false;
    }
  }

  /** The reading half of `LoadNumber`: the text of the number and whether it is an int. */
  method ReadNumber(s: Stream) returns (r: Result<(string, bool)>)
    requires s.Valid()
    modifies s
    ensures s.Valid()
    ensures var spec := NumberLexeme(s.text, old(s.pos));
      && (r.Ok? <==> spec.Ok?)
      && (r.Ok? ==> s.pos == spec.value.end && r.value == (s.text[old(s.pos)..s.pos], spec.value.isInt))
      && (r.Err? ==> r.msg == spec.msg)
  {
    ghost var t, p := s.text, s.pos;
    var parsed: string := [];
    var c := s.Peek();
    if c == Some('-') {
      var ch := s.Get();
      parsed := parsed + [ch];
    }
    ghost var p1 := s.pos;
    assert parsed == t[p..p1];
    var part := ReadInteger(s, parsed);
    if part.Err? {
      return Err(part.msg);
    }
    ghost var p2 := s.pos;
    SliceJoin(t, p, p1, p2);
    assert part.value == t[p..p2];
    var isInt := true;
    var found;
    part, found := ReadFraction(s, part.value);
    if part.Err? {
      return Err(part.msg);
    }
    if found {
      isInt := false;
    }
    ghost var p3 := s.pos;
    SliceJoin(t, p, p2, p3);
    assert part.value == t[p..p3];
    part, found := ReadExponent(s, part.value);
    if part.Err? {
      return Err(part.msg);
    }
    if found {
      isInt := false;
    }
    SliceJoin(t, p, p3, s.pos);
    assert part.value == t[p..s.pos];
    r := Ok((part.value, isInt));
  }

  /** `LoadNumber`: collect the text of the number in `parsed_num`, then convert it. */
  method LoadNumber(s: Stream) returns (r: Result<Node>)
    requires s.Valid()
    modifies s
    ensures s.Valid()
    ensures Agrees(r, ParseNumber(s.text, old(s.pos)), s.pos)
  {
    var parsed := ReadNumber(s);
    if parsed.Err? {
      return Err(parsed.msg);
    }
    r := Convert(parsed.value.0, parsed.value.1);
  }

  /** `LoadString`, from the character after the opening quote. */
  method LoadString(s: Stream) returns (r: Result<string>)
    requires s.Valid()
    modifies s
    ensures s.Valid()
    ensures AgreesString(r, ParseString(s.text, old(s.pos)), s.pos)
  {
    ghost var p0 := s.pos;
    var acc: string := [];
    PrefixedEmpty(ParseString(s.text, s.pos));
    while true
      invariant s.Valid() && p0 <= s.pos
      invariant ParseString(s.text, p0) == Prefixed(acc, ParseString(s.text, s.pos))
      decreases |s.text| - s.pos
    {
      var ch := s.Peek();
      if ch.None? {
        return Err("String parsing error");
      }
      if ch.value == '"' {
        var _ := s.Get();
        assert acc + [] == acc;
        return Ok(acc);
      } else if ch.value == '\\' {
        var _ := s.Get();
        var escaped := s.Peek();
        if escaped.None? {
          return Err("String parsing error");
        }
        match Unescape(escaped.value)
        case None =>
          return Err("Unrecognized escape sequence \\" + [escaped.value]);
        case Some(decoded) =>
          assert ParseString(s.text, s.pos - 1) == Prefixed([decoded], ParseString(s.text, s.pos + 1));
          PrefixedTwice(acc, [decoded], ParseString(s.text, s.pos + 1));
          acc := acc + [decoded];
      } else if ch.value == '\n' || ch.value == '\r' {
        return Err("Unexpected end of line");
      } else {
        PrefixedTwice(acc, [ch.value], ParseString(s.text, s.pos + 1));
        acc := acc + [ch.value];
      }
      var _ := s.Get();
    }
  }

  lemma PrefixedEmpty(r: Result<(string, nat)>)
    ensures Prefixed([], r) == r
  {
    if r.Ok? {
      assert [] + r.value.0 == r.value.0;
    }
  }

  lemma PrefixedTwice(a: string, b: string, r: Result<(string, nat)>)
    ensures Prefixed(a, Prefixed(b, r)) == Prefixed(a + b, r)
  {
    if r.Ok? {
      assert a + (b + r.value.0) == (a + b) + r.value.0;
    }
  }

  /** `LoadNull`. */
  method LoadNull(s: Stream) returns (r: Result<Node>)
    requires s.Valid()
    modifies s
    ensures s.Valid()
    ensures Agrees(r, ParseNull(s.text, old(s.pos)), s.pos)
  {
    ghost var p0 := s.pos;
    var word: string := [];
    var i: nat := 0;
    while true
      invariant s.Valid() && p0 <= s.pos
      invariant NullLoop(s.text, p0, 0, []) == NullLoop(s.text, s.pos, i, word)
      decreases |s.text| - s.pos
    {
      var c := s.Extract();
      if c.None? || i >= 4 {
        break;
      }
      word := word + [c.value];
      i := i + 1;
    }
    if word != "null" {
      return Err("Unexpected value");
    }
    return Ok(Null);
  }

  /** `LoadBool`. */
  method LoadBool(s: Stream) returns (r: Result<Node>)
    requires s.Valid()
    modifies s
    ensures s.Valid()
    ensures Agrees(r, ParseBool(s.text, old(s.pos)), s.pos)
  {
    ghost var p0 := s.pos;
    var word: string := [];
    var c: Option<char> := None;
    while true
      invariant s.Valid() && p0 <= s.pos
      invariant BoolLoop(s.text, p0, [], None) == BoolLoop(s.text, s.pos, word, c)
      decreases |s.text| - s.pos
    {
      var read := s.Extract();
      if read.None? {
        break;
      }
      c := read;
      if |word| >= 5 || c.value == 'e' {
        break;
      }
      word := word + [c.value];
    }
    if c.Some? {
      word := word + [c.value];
    }
    if word == "true" {
      return Ok(Bool(true));
    }
    if word == "false" {
      return Ok(Bool(false));
    }
    return Err("Unexpected value");
  }

  /** `LoadArray`, from the character after '['. */
  method LoadArray(s: Stream) returns (r: Result<Node>)
    requires s.Valid()
    modifies s
    ensures s.Valid()
    ensures Agrees(r, ParseArray(s.text, old(s.pos), []), s.pos)
    decreases |s.text| - s.pos, 4
  {
    ghost var p0 := s.pos;
    var items: seq<Node> := [];
    while true
      invariant s.Valid() && p0 <= s.pos
      invariant ParseArray(s.text, p0, []) == ParseArray(s.text, s.pos, items)
      decreases |s.text| - s.pos
    {
      var done, result, next := LoadArrayTurn(s, items);
      if done {
        return result;
      }
      items := next;
    }
  }

  /**
   * One turn of the loop of `LoadArray`: extract a character; at the end of the input or at ']'
   * the array is finished, otherwise a ',' is dropped or the character put back, and the next
   * element is read and appended.
   */
  method LoadArrayTurn(s: Stream, items: seq<Node>) returns (done: bool, r: Result<Node>, next: seq<Node>)
    requires s.Valid()
    modifies s
    ensures s.Valid()
    ensures done ==> Agrees(r, ParseArray(s.text, old(s.pos), items), s.pos)
    ensures !done ==> old(s.pos) < s.pos && ParseArray(s.text, old(s.pos), items) == ParseArray(s.text, s.pos, next)
    decreases |s.text| - s.pos, 3
  {
    var c := s.Extract();
    if c.None? {
      return true, Err("] not expected"), items;
    }
    if c.value == ']' {
      return true, Ok(Array(items)), items;
    }
    if c.value != ',' {
      s.Putback();
    }
    var node := LoadNode(s);
    if node.Err? {
      return true, Err(node.msg), items;
    }
    return false, node, items + [node.value];
  }

  /** `LoadDict`, from the character after '{'. */
  method LoadDict(s: Stream) returns (r: Result<Node>)
    requires s.Valid()
    modifies s
    ensures s.Valid()
    ensures Agrees(r, ParseDict(s.text, old(s.pos), None, map[]), s.pos)
    decreases |s.text| - s.pos, 3
  {
    ghost var p0 := s.pos;
    var entries: map<string, Node> := map[];
    var c: Option<char> := None;
    while true
      invariant s.Valid() && p0 <= s.pos
      invariant ParseDict(s.text, p0, None, map[]) == ParseDict(s.text, s.pos, c, entries)
      decreases |s.text| - s.pos
    {
      var read := s.Extract();
      if read.None? {
        break;
      }
      c := read;
      if c.value == '}' {
        break;
      }
      if c.value == ',' {
        read := s.Extract();
        if read.Some? {
          c := read;
        }
      }
      var key := LoadString(s);
      if key.Err? {
        return Err(key.msg);
      }
      read := s.Extract();
      if read.Some? {
        c := read;
      }
      var node := LoadNode(s);
      if node.Err? {
        return Err(node.msg);
      }
      if key.value !in entries {
        entries := entries[key.value := node.value];
      }
    }
    if c != Some('}') {
      return Err("} not expected");
    }
    return Ok(Dict(entries));
  }

  /** `LoadNode`. */
  method LoadNode(s: Stream) returns (r: Result<Node>)
    requires s.Valid()
    modifies s
    ensures s.Valid()
    ensures Agrees(r, ParseNode(s.text, old(s.pos)), s.pos)
    decreases |s.text| - s.pos, 2
  {
    var c := s.Extract();
    if c.None? {
      return Ok(Null);
    }
    match c.value
    case '[' =>
      r := LoadArray(s);
    case '{' =>
      r := LoadDict(s);
    case '"' =>
      var str := LoadString(s);
      r := if str.Ok? then Ok(String(str.value)) else Err(str.msg);
    case 'n' =>
      s.Putback();
      r := LoadNull(s);
    case 't' =>
      s.Putback();
      r := LoadBool(s);
    case 'f' =>
      s.Putback();
      r := LoadBool(s);
    case _ =>
      s.Putback();
      r := LoadNumber(s);
  }

  /** `json::Load`: read the first node of the text. */
  method Load(text: string) returns (r: Result<Node>)
    ensures r == ParseDocument(text)
  {
    var s := new Stream(text);
    r := LoadNode(s);
  }
}
