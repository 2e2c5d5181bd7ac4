// One line of the property file, as property_ensure_loaded
// (libcutils/properties_nonandroid.c) reads it: skipped when blank or a
// comment, otherwise scanned with the format "%32[^=]=%92s".
module PropertyLine {
  import opened Wrappers

  /** PROPERTY_KEY_MAX: the size of a key field, terminator included. */
  const PropertyKeyMax: nat := 32
  /** PROPERTY_VALUE_MAX (and PROP_VALUE_MAX, the same number): the size of a value field. */
  const PropertyValueMax: nat := 92

  /** A key and its value, as the table stores them. */
  datatype Entry = Entry(key: string, value: string)

  /** isspace in the C locale. */
  predicate IsSpace(c: char) {
    c == ' ' || c == '\t' || c == '\n' || c == '\U{000B}' || c == '\U{000C}' || c == '\r'
  }


  /** The length of the longest prefix of s, at most cap long, whose characters all satisfy p. */
  function Span(s: string, p: char -> bool, cap: nat): (n: nat)
    ensures n <= |s| && n <= cap
    ensures forall i :: 0 <= i < n ==> p(s[i])
    ensures n < |s| && n < cap ==> !p(s[n])
  {
    if s == [] || cap == 0 || !p(s[0]) then 0 else 1 + Span(s[1..], p, cap - 1)
  }

  /** A span is pinned down by where its run of matching characters stops. */
  lemma SpanIs(s: string, p: char -> bool, cap: nat, m: nat)
    requires m <= |s| && m <= cap
    requires forall i :: 0 <= i < m ==> p(s[i])
    requires m == |s| || m == cap || !p(s[m])
    ensures Span(s, p, cap) == m
  {
  }

  /** A character the key conversion "%[^=]" accepts. */
  predicate IsKeyChar(c: char) {
    c != '='
  }

  /** A character the string conversion "%s" accepts. */
  predicate IsNonSpace(c: char) {
    !IsSpace(c)
  }

  /** Blank lines and comments are skipped without being scanned. */
  predicate IsSkipped(line: string) {
    |line| > 0 && (line[0] == '\n' || line[0] == '#')
  }

  /** sscanf(line, "%32[^=]=%92s", key, value) == 2, with the two fields read. */
  function ParseLine(line: string): (r: Option<Entry>)
    ensures r.Some? ==> IsKeyField(r.value.key)
    ensures r.Some? ==> 1 <= |r.value.value| <= PropertyValueMax
    ensures r.Some? ==> forall i :: 0 <= i < |r.value.value| ==> IsNonSpace(r.value.value[i])
  {
    var k := Span(line, IsKeyChar, PropertyKeyMax);
    if k == 0 || k == |line| || line[k] != '=' then None
    else
      var value := ScanValue(line[k + 1..]);
      if value.None? then None else Some(Entry(line[..k], value.value))
  }

  /** "%92s" on what follows the '=': white space skipped, then up to 92
      non-space characters, and no match when there are none. */
  function ScanValue(after: string): (r: Option<string>)
    ensures r.Some? ==> 1 <= |r.value| <= PropertyValueMax
    ensures r.Some? ==> forall i :: 0 <= i < |r.value| ==> IsNonSpace(r.value[i])
  {
    var token := after[Span(after, IsSpace, |after|)..];
    var v := Span(token, IsNonSpace, PropertyValueMax);
    if v == 0 then None else Some(token[..v])
  }

  /** A key "%32[^=]" can read: 1 to 32 characters other than '='. */
  predicate IsKeyField(key: string) {
    1 <= |key| <= PropertyKeyMax && forall i :: 0 <= i < |key| ==> IsKeyChar(key[i])
  }

  /** A run of white space, which "%s" skips. */
  predicate IsBlankRun(blanks: string) {
    forall i :: 0 <= i < |blanks| ==> IsSpace(blanks[i])
  }

  /** A value "%92s" reads when rest follows it: 1 to 92 non-space characters
      that stop at white space, at the end of the line or at the width limit. */
  predicate IsValueField(value: string, rest: string) {
    && 1 <= |value| <= PropertyValueMax
    && (forall i :: 0 <= i < |value| ==> IsNonSpace(value[i]))
    && (rest == [] || IsSpace(rest[0]) || |value| == PropertyValueMax)
  }

  /** line is key '=' blanks value rest, the shape the format accepts. */
  predicate Splits(line: string, key: string, blanks: string, value: string, rest: string) {
    line == key + "=" + blanks + value + rest && IsKeyField(key) && IsBlankRun(blanks) && IsValueField(value, rest)
  }

  /** Every accepted line has the shape, with the fields read as key and value. */
  lemma ParseLineSound(line: string)
    requires ParseLine(line).Some?
    ensures exists blanks, rest :: Splits(line, ParseLine(line).value.key, blanks, ParseLine(line).value.value, rest)
  {
    var blanks, rest := ParseLineFields(line);
  }

  /** The blanks and the rest around the fields of an accepted line. */
  lemma ParseLineFields(line: string) returns (blanks: string, rest: string)
    requires ParseLine(line).Some?
    ensures Splits(line, ParseLine(line).value.key, blanks, ParseLine(line).value.value, rest)
  {
    var k := Span(line, IsKeyChar, PropertyKeyMax);
    var after := line[k + 1..];
    var w := Span(after, IsSpace, |after|);
    var token := after[w..];
    var v := Span(token, IsNonSpace, PropertyValueMax);
    blanks, rest := after[..w], token[v..];
    SpansSplit(line, k, after, w, token, v);
  }

  /** The three spans ParseLine measures cut an accepted line into the shape. */
  lemma SpansSplit(line: string, k: nat, after: string, w: nat, token: string, v: nat)
    requires 0 < k < |line| && line[k] == '=' && after == line[k + 1..] && w <= |after| && token == after[w..]
    requires forall i :: 0 <= i < k ==> IsKeyChar(line[i])
    requires k <= PropertyKeyMax
    requires forall i :: 0 <= i < w ==> IsSpace(after[i])
    requires 0 < v <= |token| && v <= PropertyValueMax
    requires forall i :: 0 <= i < v ==> IsNonSpace(token[i])
    requires v < |token| && v < PropertyValueMax ==> !IsNonSpace(token[v])
    ensures Splits(line, line[..k], after[..w], token[..v], token[v..])
  {
    var key, blanks, value, rest := line[..k], after[..w], token[..v], token[v..];
    assert line == key + "=" + blanks + value + rest by {
      Rejoin(line, k, after, w, token, v);
    }
    assert IsKeyField(key) by {
      forall i | 0 <= i < |key| ensures IsKeyChar(key[i]) {
        assert key[i] == line[i];
      }
    }
    assert IsBlankRun(blanks) by {
      forall i | 0 <= i < |blanks| ensures IsSpace(blanks[i]) {
        assert blanks[i] == after[i];
      }
    }
    assert IsValueField(value, rest) by {
      forall i | 0 <= i < |value| ensures IsNonSpace(value[i]) {
        assert value[i] == token[i];
      }
    }
  }

  /** A line cut at the '=', the end of the blanks and the end of the value
      is the concatenation of its pieces. */
  lemma Rejoin(line: string, k: nat, after: string, w: nat, token: string, v: nat)
    requires k < |line| && line[k] == '=' && after == line[k + 1..] && w <= |after| && token == after[w..] && v <= |token|
    ensures line == line[..k] + "=" + after[..w] + token[..v] + token[v..]
  {
    var head, blanks, value, rest := line[..k] + "=", after[..w], token[..v], token[v..];
    assert token == value + rest;
    assert after == blanks + token;
    assert line == head + after by {
      assert line[..k + 1] == head;
      assert line == line[..k + 1] + line[k + 1..];
    }
    Associate(head, blanks, value, rest);
  }

  /** Four strings concatenated in either grouping. */
  lemma Associate(a: string, b: string, c: string, d: string)
    ensures a + b + c + d == a + (b + (c + d))
  {
  }

  /** Every line of the shape is accepted, and the fields read are its key and value. */
  lemma ParseLineComplete(line: string, key: string, blanks: string, value: string, rest: string)
    requires Splits(line, key, blanks, value, rest)
    ensures ParseLine(line) == Some(Entry(key, value))
  {
    var k := |key|;
    Unjoin(line, key, blanks, value, rest);
    SpanIs(line, IsKeyChar, PropertyKeyMax, k) by {
      forall i | 0 <= i < k ensures IsKeyChar(line[i]) {
        assert line[i] == key[i];
      }
    }
    ScanValueOf(blanks, value, rest);
  }

  /** "%92s" reads exactly the value of blanks, value and rest in that shape. */
  lemma ScanValueOf(blanks: string, value: string, rest: string)
    requires IsBlankRun(blanks) && IsValueField(value, rest)
    ensures ScanValue(blanks + (value + rest)) == Some(value)
  {
    var after := blanks + (value + rest);
    var token := after[|blanks|..];
    assert token == value + rest;
    assert token[..|value|] == value;
    SpanIs(after, IsSpace, |after|, |blanks|) by {
      forall i | 0 <= i < |blanks| ensures IsSpace(after[i]) {
        assert after[i] == blanks[i];
      }
    }
    SpanIs(token, IsNonSpace, PropertyValueMax, |value|) by {
      forall i | 0 <= i < |value| ensures IsNonSpace(token[i]) {
        assert token[i] == value[i];
      }
    }
  }

  /** The pieces of key '=' blanks value rest, found again by position. */
  lemma Unjoin(line: string, key: string, blanks: string, value: string, rest: string)
    requires line == key + "=" + blanks + value + rest
    ensures line[..|key|] == key && line[|key|] == '='
    ensures line[|key| + 1..] == blanks + (value + rest)
    ensures (blanks + (value + rest))[|blanks|..] == value + rest
  {
    Associate(key + "=", blanks, value, rest);
    assert line == key + ("=" + (blanks + (value + rest)));
  }

  /** Lines 76-79: drop one newline ending the scanned value. */
  function TrimNewline(value: string): (r: string)
    ensures |value| > 0 && value[|value| - 1] == '\n' ==> value == r + "\n"
    ensures !(|value| > 0 && value[|value| - 1] == '\n') ==> r == value
  {
    if |value| > 0 && value[|value| - 1] == '\n' then value[..|value| - 1] else value
  }

  /** The value "%92s" reads never holds a newline, so the trim never fires. */
  lemma TrimNewlineOfParsed(line: string)
    requires ParseLine(line).Some?
    ensures TrimNewline(ParseLine(line).value.value) == ParseLine(line).value.value
  {
    var value := ParseLine(line).value.value;
    assert IsNonSpace(value[|value| - 1]);
  }
}
