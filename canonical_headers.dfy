/** The canonical header block of CanonicalHeaders.cs (step 4 of the AWS Signature Version 4
    canonical request): one line `lower(key):trim(compress(value))\n` per header, in the
    order given. */
module CanonicalHeaders {
  import opened Wrappers
  import opened Text
  import CompressSpace

  /** `CompressSpaces(value)?.Trim()` appended to a builder: a null value appends nothing. */
  function ValueSegment(value: Option<string>): string {
    match value
    case None => ""
    case Some(v) => Trim(CompressSpace.Compress(v))
  }

  function CanonicalLine(entry: HeaderEntry): string {
    ToLower(entry.key) + ":" + ValueSegment(entry.value) + "\n"
  }

  /** The lines of all headers, in input order; no re-sorting. */
  function CanonicalBlock(headers: seq<HeaderEntry>): string {
    if |headers| == 0 then ""
    else CanonicalBlock(headers[..|headers| - 1]) + CanonicalLine(headers[|headers| - 1])
  }

  /** The four appends of one loop iteration, shared by the three variants. */
  method AppendLine(builder: string, entry: HeaderEntry) returns (r: string)
    ensures r == builder + CanonicalLine(entry)
  {
    r := builder + ToLower(entry.key);
    r := r + ":";
    var compressed := CompressSpace.CompressSpaces(entry.value);
    match compressed {
      case Some(c) => r := r + Trim(c);
      case None =>
    }
    r := r + "\n";
  }

  /** `CanonicalizeHeaders`, lines 35-51: a null or empty sequence gives "". */
  method CanonicalizeHeaders(sortedHeaders: Option<seq<HeaderEntry>>) returns (r: string)
    ensures sortedHeaders.None? ==> r == ""
    ensures sortedHeaders.Some? ==> r == CanonicalBlock(sortedHeaders.value)
  {
    if sortedHeaders.None? || |sortedHeaders.value| == 0 {
      return "";
    }
    var headers := sortedHeaders.value;
    var builder := "";
    for i := 0 to |headers|
      invariant builder == CanonicalBlock(headers[..i])
    {
      assert headers[..i + 1][..i] == headers[..i];
      builder := AppendLine(builder, headers[i]);
    }
    assert headers[..|headers|] == headers;
    r := builder;
  }

  /** `CanonicalizeHeadersValueStringBuilder`, lines 53-74: the sequence is materialised and
      its count checked before the same loop runs over a `ValueStringBuilder`. */
  method CanonicalizeHeadersValueStringBuilder(sortedHeaders: Option<seq<HeaderEntry>>) returns (r: string)
    ensures sortedHeaders.None? ==> r == ""
    ensures sortedHeaders.Some? ==> r == CanonicalBlock(sortedHeaders.value)
  {
    if sortedHeaders.None? {
      return "";
    }
    var materializedSortedHeaders := sortedHeaders.value;
    if |materializedSortedHeaders| == 0 {
      return "";
    }
    var builder: string := [];
    var i := 0;
    while i < |materializedSortedHeaders|
      invariant 0 <= i <= |materializedSortedHeaders|
      invariant builder == CanonicalBlock(materializedSortedHeaders[..i])
    {
      assert materializedSortedHeaders[..i + 1][..i] == materializedSortedHeaders[..i];
      builder := AppendLine(builder, materializedSortedHeaders[i]);
      i := i + 1;
    }
    assert materializedSortedHeaders[..i] == materializedSortedHeaders;
    r := builder;
  }

  /** `CanonicalizeHeadersValueStringBuilderAndCompressSpaces`, lines 76-97: the previous
      variant with the compressor of CompressSpace.cs called directly. */
  method CanonicalizeHeadersValueStringBuilderAndCompressSpaces(sortedHeaders: Option<seq<HeaderEntry>>) returns (r: string)
    ensures sortedHeaders.None? ==> r == ""
    ensures sortedHeaders.Some? ==> r == CanonicalBlock(sortedHeaders.value)
  {
    if sortedHeaders.None? {
      return "";
    }
    var materializedSortedHeaders := sortedHeaders.value;
    if |materializedSortedHeaders| == 0 {
      return "";
    }
    var builder: string := [];
    for i := 0 to |materializedSortedHeaders|
      invariant builder == CanonicalBlock(materializedSortedHeaders[..i])
    {
      assert materializedSortedHeaders[..i + 1][..i] == materializedSortedHeaders[..i];
      builder := AppendLine(builder, materializedSortedHeaders[i]);
    }
    assert materializedSortedHeaders[..|materializedSortedHeaders|] == materializedSortedHeaders;
    r := builder;
  }

  /** One more header adds exactly its line at the end. */
  lemma CanonicalBlockSnoc(headers: seq<HeaderEntry>, entry: HeaderEntry)
    ensures CanonicalBlock(headers + [entry]) == CanonicalBlock(headers) + CanonicalLine(entry)
  {
    assert (headers + [entry])[..|headers|] == headers;
  }

  /** The block of a non-empty sequence ends in "\n"; a null value gives `key:\n`. */
  lemma CanonicalBlockEnds(headers: seq<HeaderEntry>)
    ensures |headers| > 0 ==> |CanonicalBlock(headers)| > 0 && CanonicalBlock(headers)[|CanonicalBlock(headers)| - 1] == '\n'
    ensures forall k :: CanonicalLine(HeaderEntry(k, None)) == ToLower(k) + ":\n"
  {
  }

  /** An infix of a compact text is compact. */
  lemma CompactInfix(t: string, i: nat, j: nat)
    requires i <= j <= |t|
    requires CompressSpace.Compact(t)
    ensures CompressSpace.Compact(t[i..j])
  {
    var u := t[i..j];
    forall k | 0 <= k < |u|
      ensures (IsWhiteSpace(u[k]) ==> u[k] == ' ') && (k + 1 < |u| && IsWhiteSpace(u[k]) ==> !IsWhiteSpace(u[k + 1]))
    {
      assert u[k] == t[i + k];
      if k + 1 < |u| {
        assert u[k + 1] == t[i + k + 1];
      }
    }
  }

  /** A trimmed text neither starts nor ends with whitespace. */
  lemma TrimEnds(t: string)
    ensures Trim(t) == [] || (!IsWhiteSpace(Trim(t)[0]) && !IsWhiteSpace(Trim(t)[|Trim(t)| - 1]))
  {
    var s := TrimStart(t);
    var e := TrimEnd(s);
    if e != [] {
      assert e[0] == s[0];
    }
  }

  /** Trimming a compact text leaves it compact. */
  lemma TrimCompact(t: string)
    requires CompressSpace.Compact(t)
    ensures CompressSpace.Compact(Trim(t))
  {
    var s := TrimStart(t);
    CompactInfix(t, |t| - |s|, |t|);
    CompactInfix(s, 0, |TrimEnd(s)|);
  }

  /** A value segment has no leading or trailing whitespace, no two adjacent whitespace
      characters, and every whitespace character in it is ' '. */
  lemma ValueSegmentClean(value: Option<string>)
    ensures ValueSegment(value) == [] || (!IsWhiteSpace(ValueSegment(value)[0]) && !IsWhiteSpace(ValueSegment(value)[|ValueSegment(value)| - 1]))
    ensures CompressSpace.Compact(ValueSegment(value))
  {
    if value.Some? {
      CompressSpace.CompressIsCompact(value.value);
      TrimEnds(CompressSpace.Compress(value.value));
      TrimCompact(CompressSpace.Compress(value.value));
    }
  }

  lemma ExampleValue()
    ensures CompressSpace.Compress("text/plain   charset=utf-8") == "text/plain charset=utf-8"
  {
    var a, w, b := "text/plain", "   ", "charset=utf-8";
    CompressSpace.CompressWords(a, w, b);
    assert a + " " + b == "text/plain charset=utf-8";
    CompressSpace.CompressSame(a + w + b, "text/plain   charset=utf-8");
  }

  lemma ExampleTrim()
    ensures Trim("text/plain charset=utf-8") == "text/plain charset=utf-8"
  {
    var v := "text/plain charset=utf-8";
    assert !IsWhiteSpace(v[0]) && !IsWhiteSpace(v[|v| - 1]);
    assert TrimStart(v) == v;
    assert TrimEnd(v) == v;
  }

  lemma ExampleKey()
    ensures ToLower("Content-Type") == "content-type"
  {
    var k := "Content-Type";
    assert LowerChar(k[0]) == 'c' && LowerChar(k[8]) == 't';
    assert forall i :: 0 <= i < |k| && i != 0 && i != 8 ==> LowerChar(k[i]) == k[i];
  }

  /** A single header gives its own line. */
  lemma CanonicalBlockSingle(e: HeaderEntry)
    ensures CanonicalBlock([e]) == CanonicalLine(e)
  {
    assert [e][..0] == [];
  }

  lemma ExampleSegment()
    ensures ValueSegment(Some("text/plain   charset=utf-8")) == "text/plain charset=utf-8"
  {
    ExampleValue();
    ExampleTrim();
  }

  lemma ExampleLineText()
    ensures "content-type" + ":" + "text/plain charset=utf-8" + "\n" == "content-type:text/plain charset=utf-8\n"
  {
  }

  lemma ExampleLine()
    ensures CanonicalLine(HeaderEntry("Content-Type", Some("text/plain   charset=utf-8")))
      == "content-type:text/plain charset=utf-8\n"
  {
    ExampleSegment();
    ExampleKey();
    ExampleLineText();
  }

  /** "Content-Type: text/plain   charset=utf-8" gives "content-type:text/plain charset=utf-8\n". */
  lemma CanonicalBlockExample()
    ensures CanonicalBlock([HeaderEntry("Content-Type", Some("text/plain   charset=utf-8"))])
      == "content-type:text/plain charset=utf-8\n"
  {
    ExampleLine();
    CanonicalBlockSingle(HeaderEntry("Content-Type", Some("text/plain   charset=utf-8")));
  }
}
