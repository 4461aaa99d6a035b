/** The canonical header-name list of CanonicalHeaderNames.cs: the lower-cased keys, with a
    ';' before each key appended to a non-empty builder. */
module CanonicalHeaderNames {
  import opened Wrappers
  import opened Text

  function LowerKeys(headers: seq<HeaderEntry>): (r: seq<string>)
    ensures |r| == |headers|
    ensures forall i :: 0 <= i < |headers| ==> r[i] == ToLower(headers[i].key)
  {
    seq(|headers|, i requires 0 <= i < |headers| => ToLower(headers[i].key))
  }

  /** What the builder holds after the loop, one header at a time from the end: a ';' is
      added only when the builder is already non-empty. */
  function GuardedNames(headers: seq<HeaderEntry>): string {
    if |headers| == 0 then ""
    else
      var builder := GuardedNames(headers[..|headers| - 1]);
      (if |builder| > 0 then builder + ";" else builder) + ToLower(headers[|headers| - 1].key)
  }

  /** Line 27: `string.Join(';', keys.Select(ToLowerInvariant))`. */
  function JoinedNames(headers: seq<HeaderEntry>): string {
    Join(";", LowerKeys(headers))
  }

  /** `CanonicalizeHeaderNames`, lines 32-44. */
  method CanonicalizeHeaderNames(sortedHeaders: seq<HeaderEntry>) returns (r: string)
    ensures r == Join(";", LowerKeys(DropLeadingEmptyKeys(sortedHeaders)))
  {
    var builder := "";
    for i := 0 to |sortedHeaders|
      invariant builder == GuardedNames(sortedHeaders[..i])
    {
      GuardedNamesPrefix(sortedHeaders, i);
      if |builder| > 0 {
        builder := builder + ";";
      }
      builder := builder + ToLower(sortedHeaders[i].key);
    }
    assert sortedHeaders[..|sortedHeaders|] == sortedHeaders;
    GuardedNamesJoin(sortedHeaders);
    r := builder;
  }

  /** `CanonicalizeHeaderNamesValueStringBuilder`, lines 46-58: the same loop over a
      `ValueStringBuilder`. */
  method CanonicalizeHeaderNamesValueStringBuilder(sortedHeaders: seq<HeaderEntry>) returns (r: string)
    ensures r == Join(";", LowerKeys(DropLeadingEmptyKeys(sortedHeaders)))
  {
    var builder: string := [];
    var i := 0;
    while i < |sortedHeaders|
      invariant 0 <= i <= |sortedHeaders|
      invariant builder == GuardedNames(sortedHeaders[..i])
    {
      GuardedNamesPrefix(sortedHeaders, i);
      if |builder| > 0 {
        builder := builder + [';'];
      }
      builder := builder + ToLower(sortedHeaders[i].key);
      i := i + 1;
    }
    assert sortedHeaders[..|sortedHeaders|] == sortedHeaders;
    GuardedNamesJoin(sortedHeaders);
    r := builder;
  }

  /** One more header of `headers` read by the loop. */
  lemma GuardedNamesPrefix(headers: seq<HeaderEntry>, i: nat)
    requires i < |headers|
    ensures var b := GuardedNames(headers[..i]);
      GuardedNames(headers[..i + 1]) == (if |b| > 0 then b + ";" else b) + ToLower(headers[i].key)
  {
    assert headers[..i + 1][..i] == headers[..i];
  }

  /** The headers from the first one with a non-empty key on. */
  function DropLeadingEmptyKeys(headers: seq<HeaderEntry>): (r: seq<HeaderEntry>)
    ensures |r| <= |headers| && r == headers[|headers| - |r|..]
    ensures r == [] || r[0].key != ""
    ensures forall i :: 0 <= i < |headers| - |r| ==> headers[i].key == ""
  {
    if |headers| > 0 && headers[0].key == "" then
      var r := DropLeadingEmptyKeys(headers[1..]);
      assert headers[1..][|headers| - 1 - |r|..] == headers[|headers| - |r|..];
      assert forall i :: 1 <= i < |headers| - |r| ==> headers[i] == headers[1..][i - 1];
      r
    else headers
  }

  lemma {:induction false} DropLeadingSnoc(headers: seq<HeaderEntry>, e: HeaderEntry)
    ensures DropLeadingEmptyKeys(headers + [e]) ==
      if DropLeadingEmptyKeys(headers) == [] then (if e.key == "" then [] else [e])
      else DropLeadingEmptyKeys(headers) + [e]
  {
    if |headers| > 0 {
      assert (headers + [e])[1..] == headers[1..] + [e];
      if headers[0].key == "" {
        DropLeadingSnoc(headers[1..], e);
      }
    }
  }

  /** `DropLeadingSnoc` stated on the last header of a non-empty sequence. */
  lemma DropLeadingLast(headers: seq<HeaderEntry>)
    requires |headers| > 0
    ensures var d := DropLeadingEmptyKeys(headers[..|headers| - 1]);
      var e := headers[|headers| - 1];
      DropLeadingEmptyKeys(headers) == if d == [] then (if e.key == "" then [] else [e]) else d + [e]
  {
    LastSplit(headers);
    DropLeadingSplit(headers, headers[..|headers| - 1], headers[|headers| - 1]);
  }

  lemma DropLeadingSplit(headers: seq<HeaderEntry>, init: seq<HeaderEntry>, e: HeaderEntry)
    requires headers == init + [e]
    ensures var d := DropLeadingEmptyKeys(init);
      DropLeadingEmptyKeys(headers) == if d == [] then (if e.key == "" then [] else [e]) else d + [e]
  {
    DropLeadingSnoc(init, e);
  }

  lemma LowerKeysSnoc(d: seq<HeaderEntry>, e: HeaderEntry)
    ensures LowerKeys(d + [e]) == LowerKeys(d) + [ToLower(e.key)]
  {
    assert forall i :: 0 <= i < |d| ==> (d + [e])[i] == d[i];
  }

  lemma {:induction false} GuardedNamesEmpty(headers: seq<HeaderEntry>)
    ensures GuardedNames(headers) == "" <==> DropLeadingEmptyKeys(headers) == []
  {
    if |headers| > 0 {
      GuardedNamesEmpty(headers[..|headers| - 1]);
      DropLeadingLast(headers);
    }
  }

  /** The loop's result is the `Join` of the lower-cased keys once the leading empty keys are
      dropped: those contribute neither text nor separators. */
  lemma {:induction false} GuardedNamesJoin(headers: seq<HeaderEntry>)
    ensures GuardedNames(headers) == Join(";", LowerKeys(DropLeadingEmptyKeys(headers)))
  {
    if |headers| > 0 {
      var init, e := headers[..|headers| - 1], headers[|headers| - 1];
      GuardedNamesJoin(init);
      GuardedNamesEmpty(init);
      DropLeadingLast(headers);
      GuardedNamesStep(init, e, DropLeadingEmptyKeys(headers), GuardedNames(headers));
    }
  }

  /** One more header `e` after `init`, given `GuardedNamesJoin` for `init`. */
  lemma GuardedNamesStep(init: seq<HeaderEntry>, e: HeaderEntry, d': seq<HeaderEntry>, builder: string)
    requires GuardedNames(init) == Join(";", LowerKeys(DropLeadingEmptyKeys(init)))
    requires GuardedNames(init) == "" <==> DropLeadingEmptyKeys(init) == []
    requires var d := DropLeadingEmptyKeys(init);
      d' == if d == [] then (if e.key == "" then [] else [e]) else d + [e]
    requires var b := GuardedNames(init);
      builder == (if |b| > 0 then b + ";" else b) + ToLower(e.key)
    ensures builder == Join(";", LowerKeys(d'))
  {
    var d, k := DropLeadingEmptyKeys(init), ToLower(e.key);
    if d != [] {
      LowerKeysSnoc(d, e);
      JoinSnoc(";", LowerKeys(d), k);
    } else if e.key != "" {
      assert LowerKeys([e]) == [k];
    }
  }

  /** The loop agrees with the `Join` of line 27 when there are no leading empty keys, in
      particular when the first key is non-empty or there is at most one header. */
  lemma GuardedNamesIsJoin(headers: seq<HeaderEntry>)
    requires |headers| <= 1 || headers[0].key != ""
    ensures GuardedNames(headers) == JoinedNames(headers)
  {
    GuardedNamesJoin(headers);
    if |headers| == 1 && headers[0].key == "" {
      assert DropLeadingEmptyKeys(headers) == [];
    }
  }

  /** Keys "" and "a": the loop gives "a", the `Join` of line 27 gives ";a". */
  lemma GuardedNamesDifferFromJoin()
    ensures GuardedNames([HeaderEntry("", None), HeaderEntry("a", None)]) == "a"
    ensures JoinedNames([HeaderEntry("", None), HeaderEntry("a", None)]) == ";a"
  {
    var h := [HeaderEntry("", None), HeaderEntry("a", None)];
    assert h[..1] == [HeaderEntry("", None)];
    assert h[..1][..0] == [];
    assert ToLower("a") == "a";
    assert LowerKeys(h) == ["", "a"];
  }

  /** No ASCII upper-case letter is left. */
  lemma {:induction false} GuardedNamesLowerCase(headers: seq<HeaderEntry>)
    ensures forall k :: 0 <= k < |GuardedNames(headers)| ==> !IsAsciiUpper(GuardedNames(headers)[k])
  {
    if |headers| > 0 {
      var init, e := headers[..|headers| - 1], headers[|headers| - 1];
      GuardedNamesLowerCase(init);
      var b := GuardedNames(init);
      var b' := if |b| > 0 then b + ";" else b;
      var r := b' + ToLower(e.key);
      assert GuardedNames(headers) == r;
      forall k | 0 <= k < |r| ensures !IsAsciiUpper(r[k]) {
        if k < |b| {
          assert r[k] == b[k];
        } else if k >= |b'| {
          assert r[k] == ToLower(e.key)[k - |b'|];
        }
      }
    }
  }

  /** The output starts with the first non-empty key: a separator is never appended to an
      empty builder. */
  lemma {:induction false} GuardedNamesLead(headers: seq<HeaderEntry>)
    ensures GuardedNames(headers) != "" ==>
      DropLeadingEmptyKeys(headers) != [] && GuardedNames(headers)[0] == LowerChar(DropLeadingEmptyKeys(headers)[0].key[0])
  {
    if |headers| > 0 {
      var init, e := headers[..|headers| - 1], headers[|headers| - 1];
      GuardedNamesLead(init);
      assert headers == init + [e];
      GuardedNamesEmpty(init);
      DropLeadingSnoc(init, e);
      var b := GuardedNames(init);
      if b != "" {
        assert GuardedNames(headers)[0] == b[0];
      }
    }
  }
}
