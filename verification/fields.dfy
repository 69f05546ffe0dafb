/** The line layout shared by the CSV record and the log line: each field is
    wrapped in double quotes and the quoted fields are joined with commas.
    Nothing inside a field is escaped. */
module Fields {
  import opened Wrappers
  import opened Text
  import opened Clock

  const QuoteChar: char := '"'

  predicate QuoteFree(f: string) {
    QuoteChar !in f
  }

  function Quote(f: string): string {
    [QuoteChar] + f + [QuoteChar]
  }

  /** The line: `"f1","f2",...,"fn"`, with no terminator. */
  function QuoteJoin(fields: seq<string>): (r: string)
    requires |fields| >= 1
    ensures |r| >= 2 && r[0] == QuoteChar && r[|r| - 1] == QuoteChar
    decreases |fields|
  {
    var head := Quote(fields[0]);
    if |fields| == 1 then head
    else
      var r := head + "," + QuoteJoin(fields[1..]);
      assert r[0] == head[0];
      r
  }

  /** Reads a line of quoted, comma-separated fields back into its fields.
      A field ends at the first quote after its opening quote, so the parse
      is exact only for quote-free fields. */
  function ParseQuoted(s: string): (r: Option<seq<string>>)
    ensures r.Some? ==> |r.value| >= 1 && forall f :: f in r.value ==> QuoteFree(f)
    decreases |s|
  {
    if |s| < 2 || s[0] != QuoteChar then None
    else
      FirstIndexFree(s[1..], QuoteChar);
      var k := 1 + FirstIndex(s[1..], QuoteChar);
      if k == |s| then None
      else
        var field := s[1..k];
        assert field == s[1..][..k - 1];
        var rest := s[k + 1..];
        if rest == [] then Some([field])
        else if rest[0] != ',' then None
        else
          match ParseQuoted(rest[1..])
          case None => None
          case Some(tail) => Some([field] + tail)
  }

  /** Parsing reads one quote-free field off the front of a line. */
  lemma ParseQuotedHead(f: string, after: string)
    requires QuoteFree(f)
    ensures var s := [QuoteChar] + f + [QuoteChar] + after;
      && (after == [] ==> ParseQuoted(s) == Some([f]))
      && (after != [] && after[0] == ',' && ParseQuoted(after[1..]).Some? ==>
            ParseQuoted(s) == Some([f] + ParseQuoted(after[1..]).value))
  {
    var s := [QuoteChar] + f + [QuoteChar] + after;
    assert s[1..] == f + [QuoteChar] + after;
    FirstIndexAfterFree(f, QuoteChar, after);
    var k := 1 + |f|;
    assert s[1..k] == f;
    assert s[k + 1..] == after;
  }

  /** The round trip for a single field. */
  lemma ParseQuoteJoinOne(fields: seq<string>)
    requires |fields| == 1 && QuoteFree(fields[0])
    ensures ParseQuoted(QuoteJoin(fields)) == Some(fields)
  {
    var f := fields[0];
    ParseQuotedHead(f, "");
    assert QuoteJoin(fields) == [QuoteChar] + f + [QuoteChar] + "";
    assert fields == [f];
  }

  /** The round trip for several fields, given the one for all but the first. */
  lemma ParseQuoteJoinCons(fields: seq<string>)
    requires |fields| >= 2 && QuoteFree(fields[0])
    requires ParseQuoted(QuoteJoin(fields[1..])) == Some(fields[1..])
    ensures ParseQuoted(QuoteJoin(fields)) == Some(fields)
  {
    var f, rest := fields[0], fields[1..];
    ParseQuotedCons(f, QuoteJoin(fields), rest, QuoteJoin(rest));
    assert [f] + rest == fields;
  }

  /** A quote-free field, a comma and a line that parses: the field is read
      off the front and the rest of the parse follows. */
  lemma ParseQuotedCons(f: string, line: string, rest: seq<string>, tail: string)
    requires QuoteFree(f) && line == Quote(f) + "," + tail
    requires ParseQuoted(tail) == Some(rest)
    ensures ParseQuoted(line) == Some([f] + rest)
  {
    CommaAfterQuote(f, tail);
    ParseQuotedHead(f, [','] + tail);
  }

  /** The line `"f",tail` seen as a quoted field followed by `,tail`. */
  lemma CommaAfterQuote(f: string, tail: string)
    ensures Quote(f) + "," + tail == [QuoteChar] + f + [QuoteChar] + ([','] + tail)
    ensures ([','] + tail)[1..] == tail
  {
  }

  /** Joining quote-free fields and parsing the line gives the fields back. */
  lemma {:induction false} ParseQuoteJoin(fields: seq<string>)
    requires |fields| >= 1
    requires forall k :: 0 <= k < |fields| ==> QuoteFree(fields[k])
    ensures ParseQuoted(QuoteJoin(fields)) == Some(fields)
    decreases |fields|
  {
    if |fields| == 1 {
      ParseQuoteJoinOne(fields);
    } else {
      var rest := fields[1..];
      forall k | 0 <= k < |rest| ensures QuoteFree(rest[k]) {
        assert rest[k] == fields[k + 1];
      }
      ParseQuoteJoin(rest);
      ParseQuoteJoinCons(fields);
    }
  }

  /** Quote-free field lists are told apart by their lines. */
  lemma QuoteJoinInjective(a: seq<string>, b: seq<string>)
    requires |a| >= 1 && |b| >= 1
    requires forall k :: 0 <= k < |a| ==> QuoteFree(a[k])
    requires forall k :: 0 <= k < |b| ==> QuoteFree(b[k])
    requires QuoteJoin(a) == QuoteJoin(b)
    ensures a == b
  {
    ParseQuoteJoin(a);
    ParseQuoteJoin(b);
  }

  /** Without escaping, a field holding `","` reads as two fields: one field
      and two fields can produce the same line. */
  lemma EmbeddedQuoteIsAmbiguous()
    ensures QuoteJoin(["a\",\"b"]) == QuoteJoin(["a", "b"])
    ensures ["a\",\"b"] != ["a", "b"]
  {
    assert ["a", "b"][1..] == ["b"];
  }

  /** A printed date (yyyy/MM/dd) holds digits and slashes only, so it needs
      no escaping. */
  lemma DateQuoteFree(t: DateTime)
    requires Valid(t)
    ensures QuoteFree(FormatDate(t))
  {
    var d := FormatDate(t);
    FormatDateDigits(t);
    forall k | 0 <= k < |d| ensures d[k] == '/' || IsDigit(d[k]) {
      if k < 4 { assert d[..4][k] == d[k]; }
      else if 5 <= k < 7 { assert d[5..7][k - 5] == d[k]; }
      else if 8 <= k { assert d[8..][k - 8] == d[k]; }
    }
  }

  /** A printed time (HH:mm:ss) holds digits and colons only. */
  lemma TimeQuoteFree(t: DateTime)
    requires Valid(t)
    ensures QuoteFree(FormatTime(t))
  {
    var h := FormatTime(t);
    FormatTimeDigits(t);
    forall k | 0 <= k < |h| ensures h[k] == ':' || IsDigit(h[k]) {
      if k < 2 { assert h[..2][k] == h[k]; }
      else if 3 <= k < 5 { assert h[3..5][k - 3] == h[k]; }
      else if 6 <= k { assert h[6..][k - 6] == h[k]; }
    }
  }

  /** A printed time with milliseconds (HH:mm:ss:fff) holds digits and colons
      only. */
  lemma TimeMillisQuoteFree(t: DateTime)
    requires Valid(t)
    ensures QuoteFree(FormatTimeMillis(t))
  {
    var m := FormatTimeMillis(t);
    TimeQuoteFree(t);
    forall k | 0 <= k < |m| ensures m[k] != QuoteChar {
      if k < 8 { assert m[..8][k] == m[k]; }
      else if 9 <= k { assert m[9..][k - 9] == m[k]; }
    }
  }
}
