/** The whitespace compressor of CompressSpace.cs: one pass that replaces every run of
    whitespace by a single ' ' and does not trim. */
module CompressSpace {
  import opened Wrappers
  import opened Text

  /** The character the compressor emits for `c`. */
  function Emitted(c: char): char {
    if IsWhiteSpace(c) then ' ' else c
  }

  /** The compressed text, stated one character at a time from the end: a whitespace
      character that follows a whitespace character adds nothing, every other character
      adds `Emitted(c)`. */
  function Compress(s: string): (r: string)
    ensures |r| <= |s|
    ensures |s| > 0 ==> |r| > 0
    decreases |s|
  {
    if |s| == 0 then []
    else
      var init, c := s[..|s| - 1], s[|s| - 1];
      if |init| > 0 && IsWhiteSpace(init[|init| - 1]) && IsWhiteSpace(c) then Compress(init)
      else Compress(init) + [Emitted(c)]
  }

  /** `CompressSpaces(string)`, lines 22-47: null stays null, everything else is `Compress`. */
  method CompressSpaces(data: Option<string>) returns (r: Option<string>)
    ensures data.None? <==> r.None?
    ensures data.Some? ==> r == Some(Compress(data.value))
  {
    if data.None? {
      return None;
    }
    var s := data.value;
    var dataLength := |s|;
    if dataLength == 0 {
      return Some("");
    }
    var stringBuilder: string := [];
    var index := 0;
    var isWhiteSpace := false;
    for k := 0 to |s|
      invariant stringBuilder == Compress(s[..k])
      invariant index == |stringBuilder|
      invariant isWhiteSpace == (k > 0 && IsWhiteSpace(s[k - 1]))
    {
      var character := s[k];
      assert s[..k + 1][..k] == s[..k];
      // The source's condition uses the non-short-circuiting `|`, so the flag is updated for
      // every character, whatever the previous one was.
      var wasWhiteSpace := isWhiteSpace;
      isWhiteSpace := IsWhiteSpace(character);
      if !wasWhiteSpace || !isWhiteSpace {
        stringBuilder := stringBuilder + [if isWhiteSpace then ' ' else character];
        index := index + 1;
      }
    }
    assert s[..|s|] == s;
    assert stringBuilder[..index] == stringBuilder;
    return Some(stringBuilder[..index]);
  }

  /** No two adjacent whitespace characters, and every whitespace character is ' '. */
  ghost predicate Compact(t: string) {
    forall i :: 0 <= i < |t| ==>
      (IsWhiteSpace(t[i]) ==> t[i] == ' ') && (i + 1 < |t| && IsWhiteSpace(t[i]) ==> !IsWhiteSpace(t[i + 1]))
  }

  /** The first and the last character survive, as ' ' when they are whitespace:
      nothing is trimmed. */
  lemma {:induction false} CompressEnds(s: string)
    requires |s| > 0
    ensures |Compress(s)| > 0
    ensures Compress(s)[0] == Emitted(s[0])
    ensures Compress(s)[|Compress(s)| - 1] == Emitted(s[|s| - 1])
  {
    var init := s[..|s| - 1];
    if |init| > 0 {
      CompressEnds(init);
      assert init[0] == s[0];
      // When the last character is absorbed, it and its predecessor are both whitespace.
    }
  }

  /** The output is compact. */
  lemma {:induction false} CompressIsCompact(s: string)
    ensures Compact(Compress(s))
  {
    if |s| > 0 {
      var init, c := s[..|s| - 1], s[|s| - 1];
      CompressIsCompact(init);
      if !(|init| > 0 && IsWhiteSpace(init[|init| - 1]) && IsWhiteSpace(c)) {
        var r := Compress(init) + [Emitted(c)];
        if |init| > 0 {
          CompressEnds(init);
        }
        forall i | 0 <= i < |r|
          ensures (IsWhiteSpace(r[i]) ==> r[i] == ' ') && (i + 1 < |r| && IsWhiteSpace(r[i]) ==> !IsWhiteSpace(r[i + 1]))
        {
          if i + 1 < |r| {
            assert r[i] == Compress(init)[i];
          }
        }
      }
    }
  }

  /** Splitting where at least one side of the cut is not whitespace commutes with compression. */
  lemma {:induction false} CompressAppend(a: string, b: string)
    requires a == [] || b == [] || !IsWhiteSpace(a[|a| - 1]) || !IsWhiteSpace(b[0])
    ensures Compress(a + b) == Compress(a) + Compress(b)
  {
    if b == [] {
      assert a + b == a;
    } else {
      var b' := b[..|b| - 1];
      Text.ConcatFront(a, b);
      if b' == [] {
        assert a + b' == a;
        CompressSame((a + b)[..|a + b| - 1], a);
      } else {
        assert b'[0] == b[0];
        Text.ConcatFront(a, b');
        CompressAppend(a, b');
        CompressSame((a + b)[..|a + b| - 1], a + b');
      }
    }
  }

  /** A non-empty all-whitespace text compresses to " ". */
  lemma {:induction false} CompressAllWhiteSpace(w: string)
    requires |w| > 0
    requires forall i :: 0 <= i < |w| ==> IsWhiteSpace(w[i])
    ensures Compress(w) == " "
  {
    if |w| > 1 {
      CompressAllWhiteSpace(w[..|w| - 1]);
    }
  }

  /** A whitespace run followed by a text that does not start with whitespace. */
  lemma WhiteSpaceThen(w: string, b: string)
    requires |w| > 0 && forall i :: 0 <= i < |w| ==> IsWhiteSpace(w[i])
    requires b == [] || !IsWhiteSpace(b[0])
    ensures Compress(w + b) == " " + Compress(b)
  {
    CompressAppend(w, b);
    CompressAllWhiteSpace(w);
  }

  /** Equal texts compress equally; stated as a lemma so that the solver does not unfold
      `Compress` while it proves two concatenations equal. */
  lemma CompressSame(s: string, t: string)
    requires s == t
    ensures Compress(s) == Compress(t)
  {
  }

  /** The step of `CompressRun` once the run and what follows it have been compressed. */
  lemma CompressRunSplit(a: string, w: string, b: string)
    requires a == [] || !IsWhiteSpace(a[|a| - 1])
    requires Compress(w + b) == " " + Compress(b)
    ensures Compress(a + w + b) == Compress(a) + " " + Compress(b)
  {
    CompressAppend(a, w + b);
    CompressSame(a + w + b, a + (w + b));
  }

  /** Every maximal run of whitespace becomes exactly one ' '. */
  lemma CompressRun(a: string, w: string, b: string)
    requires |w| > 0 && forall i :: 0 <= i < |w| ==> IsWhiteSpace(w[i])
    requires a == [] || !IsWhiteSpace(a[|a| - 1])
    requires b == [] || !IsWhiteSpace(b[0])
    ensures Compress(a + w + b) == Compress(a) + " " + Compress(b)
  {
    WhiteSpaceThen(w, b);
    CompressRunSplit(a, w, b);
  }

  /** The non-whitespace characters of `s`, in order. */
  function NonWhiteSpace(s: string): string {
    if |s| == 0 then []
    else NonWhiteSpace(s[..|s| - 1]) + (if IsWhiteSpace(s[|s| - 1]) then [] else [s[|s| - 1]])
  }

  /** Every non-whitespace character is copied unchanged and in order. */
  lemma {:induction false} CompressKeepsNonWhiteSpace(s: string)
    ensures NonWhiteSpace(Compress(s)) == NonWhiteSpace(s)
  {
    if |s| > 0 {
      var init, c := s[..|s| - 1], s[|s| - 1];
      CompressKeepsNonWhiteSpace(init);
      var t := Compress(init) + [Emitted(c)];
      assert t[..|t| - 1] == Compress(init);
    }
  }

  /** A compact text is left unchanged. */
  lemma {:induction false} CompressCompact(t: string)
    requires Compact(t)
    ensures Compress(t) == t
  {
    if |t| > 0 {
      var init := t[..|t| - 1];
      assert Compact(init) by {
        forall i | 0 <= i < |init|
          ensures (IsWhiteSpace(init[i]) ==> init[i] == ' ') && (i + 1 < |init| && IsWhiteSpace(init[i]) ==> !IsWhiteSpace(init[i + 1]))
        {
          assert init[i] == t[i];
          if i + 1 < |init| {
            assert init[i + 1] == t[i + 1];
          }
        }
      }
      CompressCompact(init);
      if |init| > 0 {
        assert init[|init| - 1] == t[|t| - 2];
      }
    }
  }

  /** Compressing twice is compressing once. */
  lemma CompressIdempotent(s: string)
    ensures Compress(Compress(s)) == Compress(s)
  {
    CompressIsCompact(s);
    CompressCompact(Compress(s));
  }

  lemma NoWhiteSpaceIsCompact(t: string)
    requires forall i :: 0 <= i < |t| ==> !IsWhiteSpace(t[i])
    ensures Compact(t)
  {
  }

  /** Two words without whitespace around a whitespace run become the words around one ' '. */
  lemma CompressWords(a: string, w: string, b: string)
    requires forall i :: 0 <= i < |a| ==> !IsWhiteSpace(a[i])
    requires |w| > 0 && forall i :: 0 <= i < |w| ==> IsWhiteSpace(w[i])
    requires forall i :: 0 <= i < |b| ==> !IsWhiteSpace(b[i])
    ensures Compress(a + w + b) == a + " " + b
  {
    NoWhiteSpaceIsCompact(a);
    NoWhiteSpaceIsCompact(b);
    CompressCompact(a);
    CompressCompact(b);
    CompressRun(a, w, b);
  }

  /** The benchmark input "Hello,   World!" becomes "Hello, World!". */
  lemma CompressExample()
    ensures Compress("Hello,   World!") == "Hello, World!"
  {
    var a, w, b := "Hello,", "   ", "World!";
    CompressWords(a, w, b);
    assert a + " " + b == "Hello, World!";
    CompressSame(a + w + b, "Hello,   World!");
  }
}
