/** The service-name extractor of DetermineService.cs: the text after the first "//", cut at
    its first '.', then at its first '-' unless that is the first character; "queue" in any
    case means "sqs". */
module DetermineService {
  import opened Wrappers
  import opened Text

  const DoubleSlash: string := "//"
  const Queue: string := "queue"

  predicate OccursAt(s: string, pattern: string, k: nat) {
    k + |pattern| <= |s| && s[k..k + |pattern|] == pattern
  }

  function IndexOfFrom(s: string, pattern: string, from: nat): (r: int)
    ensures r == -1 || (from <= r && OccursAt(s, pattern, r))
    ensures forall k :: from <= k && (r == -1 || k < r) ==> !OccursAt(s, pattern, k)
    decreases |s| - from
  {
    if from + |pattern| > |s| then -1
    else if OccursAt(s, pattern, from) then from
    else IndexOfFrom(s, pattern, from + 1)
  }

  /** `IndexOf(pattern, StringComparison.Ordinal)`: the first occurrence, or -1. */
  function IndexOf(s: string, pattern: string): (r: int)
    ensures r == -1 || (0 <= r && OccursAt(s, pattern, r))
    ensures forall k: nat :: (r == -1 || k < r) ==> !OccursAt(s, pattern, k)
  {
    IndexOfFrom(s, pattern, 0)
  }

  /** `IndexOf(c)`: the first position of `c`, or -1. */
  function IndexOfChar(s: string, c: char): (r: int)
    ensures r == -1 <==> c !in s
    ensures r >= 0 ==> r < |s| && s[r] == c && c !in s[..r]
  {
    if |s| == 0 then -1
    else if s[0] == c then 0
    else
      var k := IndexOfChar(s[1..], c);
      assert s[1..] == s[..|s|][1..];
      if k < 0 then -1
      else
        assert s[..k + 1] == [s[0]] + s[1..][..k];
        k + 1
  }

  /** `Equals(other, StringComparison.OrdinalIgnoreCase)` on ASCII letters. */
  predicate EqualsIgnoreCase(a: string, b: string) {
    |a| == |b| && forall i :: 0 <= i < |a| ==> LowerChar(a[i]) == LowerChar(b[i])
  }

  /** Ignoring case is comparing the lower-cased texts, so "QUEUE" and "Queue" match "queue". */
  lemma EqualsIgnoreCaseLower(a: string, b: string)
    ensures EqualsIgnoreCase(a, b) <==> ToLower(a) == ToLower(b)
  {
    if ToLower(a) == ToLower(b) {
      assert forall i :: 0 <= i < |a| ==> ToLower(a)[i] == ToLower(b)[i];
    }
  }

  /** Lines 21-25: `AsSpan` of null is empty; after the first "//" if there is one. */
  function SearchWindow(url: Option<string>): (w: string) {
    match url
    case None => ""
    case Some(u) =>
      var doubleSlashIndex := IndexOf(u, DoubleSlash);
      if doubleSlashIndex >= 0 then u[doubleSlashIndex + 2..] else u
  }

  /** Lines 33-37: cut at the first '-' only when it is not the first character. */
  function CutAtHyphen(servicePart: string): (r: string)
    ensures r <= servicePart
    ensures '-' in r ==> r[0] == '-'
  {
    var hyphenIndex := IndexOfChar(servicePart, '-');
    if hyphenIndex > 0 then servicePart[..hyphenIndex] else servicePart
  }

  /** `DetermineServiceAfter`, lines 19-41. */
  function DetermineServiceAfter(url: Option<string>): (r: string)
    ensures '.' !in SearchWindow(url) ==> r == ""
    ensures '.' !in r
    ensures r != "sqs" ==> r <= SearchWindow(url) && ('-' in r ==> r[0] == '-')
  {
    var urlSpan := SearchWindow(url);
    var dotIndex := IndexOfChar(urlSpan, '.');
    if dotIndex < 0 then ""
    else
      var servicePartSpan := CutAtHyphen(urlSpan[..dotIndex]);
      if EqualsIgnoreCase(servicePartSpan, Queue) then "sqs" else servicePartSpan
  }

  /** The window starts after the first "//"; later "//" stay in it. */
  lemma SearchWindowAfterFirstDoubleSlash(u: string, k: nat)
    requires OccursAt(u, DoubleSlash, k)
    requires forall j: nat :: j < k ==> !OccursAt(u, DoubleSlash, j)
    ensures SearchWindow(Some(u)) == u[k + 2..]
  {
  }

  /** Without "//" the window is the whole input. */
  lemma SearchWindowWhole(u: string)
    requires forall j: nat :: !OccursAt(u, DoubleSlash, j)
    ensures SearchWindow(Some(u)) == u
  {
  }

  /** `DetermineServiceAfter` with the first dot of the window given: the candidate is the
      window before that '.', cut at the first '-' whose index is above 0; "queue" in any case
      gives "sqs", any other candidate is returned as it is. A stepping stone for the worked
      examples below. */
  lemma ServiceFromFirstDot(url: Option<string>, d: nat)
    requires d < |SearchWindow(url)| && SearchWindow(url)[d] == '.' && '.' !in SearchWindow(url)[..d]
    ensures var candidate := CutAtHyphen(SearchWindow(url)[..d]);
      DetermineServiceAfter(url) == if EqualsIgnoreCase(candidate, Queue) then "sqs" else candidate
  {
  }

  /** The cut takes the prefix before the first '-' when that '-' is past position 0, and
      otherwise keeps the whole part. */
  lemma CutAtHyphenShape(part: string)
    ensures '-' !in part ==> CutAtHyphen(part) == part
    ensures |part| > 0 && part[0] == '-' ==> CutAtHyphen(part) == part
    ensures forall h :: 0 < h < |part| && part[h] == '-' && '-' !in part[..h] ==> CutAtHyphen(part) == part[..h]
  {
  }

  lemma NoSlashNoDoubleSlash(u: string)
    requires '/' !in u
    ensures forall j: nat :: !OccursAt(u, DoubleSlash, j)
  {
    forall j: nat ensures !OccursAt(u, DoubleSlash, j) {
      if j < |u| {
        assert j + 2 <= |u| ==> u[j..j + 2][0] == u[j];
      }
    }
  }

  /** The service of a URL written as `scheme` + "//" + `name` + "." + `rest`. */
  lemma ServiceOfParts(scheme: string, name: string, rest: string)
    requires '/' !in scheme && '.' !in name && |name| > 0
    ensures var candidate := CutAtHyphen(name);
      DetermineServiceAfter(Some(scheme + DoubleSlash + name + "." + rest))
        == if EqualsIgnoreCase(candidate, Queue) then "sqs" else candidate
  {
    var u := scheme + DoubleSlash + name + "." + rest;
    assert OccursAt(u, DoubleSlash, |scheme|) by {
      assert u[|scheme|..|scheme| + 2] == DoubleSlash;
    }
    forall j: nat | j < |scheme| ensures !OccursAt(u, DoubleSlash, j) {
      assert u[j] == scheme[j];
    }
    var w := name + "." + rest;
    assert SearchWindow(Some(u)) == w by {
      assert u[|scheme| + 2..] == w;
    }
    assert w[..|name|] == name;
    ServiceFromFirstDot(Some(u), |name|);
  }

  /** The service of a URL without "//", written as `name` + "." + `rest`. */
  lemma ServiceOfHost(name: string, rest: string)
    requires '/' !in name + rest && '.' !in name && |name| > 0
    ensures var candidate := CutAtHyphen(name);
      DetermineServiceAfter(Some(name + "." + rest))
        == if EqualsIgnoreCase(candidate, Queue) then "sqs" else candidate
  {
    var u := name + "." + rest;
    assert '/' !in u;
    NoSlashNoDoubleSlash(u);
    assert u[..|name|] == name;
    ServiceFromFirstDot(Some(u), |name|);
  }

  lemma CutAtFirstHyphen(a: string, b: string)
    requires |a| > 0 && '-' !in a
    ensures CutAtHyphen(a + "-" + b) == a
  {
    var part := a + "-" + b;
    assert part[..|a|] == a;
    CutAtHyphenShape(part);
  }

  lemma ExampleQueueParts()
    ensures DetermineServiceAfter(Some("queue" + "." + "amazonaws.com")) == "sqs"
  {
    ServiceOfHost("queue", "amazonaws.com");
    CutAtHyphenShape("queue");
  }

  lemma ExampleQueueText()
    ensures "queue" + "." + "amazonaws.com" == "queue.amazonaws.com"
  {
  }

  lemma ExampleQueue()
    ensures DetermineServiceAfter(Some("queue.amazonaws.com")) == "sqs"
  {
    ExampleQueueParts();
    ExampleQueueText();
  }

  lemma ExampleSnsParts()
    ensures DetermineServiceAfter(Some("https:" + DoubleSlash + "sns" + "." + "us-west-2.amazonaws.com")) == "sns"
  {
    ServiceOfParts("https:", "sns", "us-west-2.amazonaws.com");
    CutAtHyphenShape("sns");
    assert !EqualsIgnoreCase("sns", Queue);
  }

  lemma ExampleSnsText()
    ensures "https:" + DoubleSlash + "sns" + "." + "us-west-2.amazonaws.com" == "https://sns.us-west-2.amazonaws.com"
  {
  }

  lemma ExampleSns()
    ensures DetermineServiceAfter(Some("https://sns.us-west-2.amazonaws.com")) == "sns"
  {
    ExampleSnsParts();
    ExampleSnsText();
  }

  lemma ExampleS3Parts()
    ensures DetermineServiceAfter(Some("https:" + DoubleSlash + "s3" + "." + "amazonaws.com")) == "s3"
  {
    ServiceOfParts("https:", "s3", "amazonaws.com");
    CutAtHyphenShape("s3");
    assert !EqualsIgnoreCase("s3", Queue);
  }

  lemma ExampleS3Text()
    ensures "https:" + DoubleSlash + "s3" + "." + "amazonaws.com" == "https://s3.amazonaws.com"
  {
  }

  lemma ExampleS3()
    ensures DetermineServiceAfter(Some("https://s3.amazonaws.com")) == "s3"
  {
    ExampleS3Parts();
    ExampleS3Text();
  }

  lemma ExampleS3ExternalParts()
    ensures DetermineServiceAfter(Some("https:" + DoubleSlash + ("s3" + "-" + "external-1") + "." + "amazonaws.com")) == "s3"
  {
    ServiceOfParts("https:", "s3" + "-" + "external-1", "amazonaws.com");
    CutAtFirstHyphen("s3", "external-1");
    assert !EqualsIgnoreCase("s3", Queue);
  }

  lemma ExampleS3ExternalText()
    ensures "https:" + DoubleSlash + ("s3" + "-" + "external-1") + "." + "amazonaws.com" == "https://s3-external-1.amazonaws.com"
  {
  }

  lemma ExampleS3External()
    ensures DetermineServiceAfter(Some("https://s3-external-1.amazonaws.com")) == "s3"
  {
    ExampleS3ExternalParts();
    ExampleS3ExternalText();
  }

  lemma NotAnUrlWindow()
    ensures '.' !in SearchWindow(Some("notanurl"))
  {
    NoSlashNoDoubleSlash("notanurl");
    SearchWindowWhole("notanurl");
  }

  lemma ExampleNoDot()
    ensures DetermineServiceAfter(Some("")) == ""
    ensures DetermineServiceAfter(Some("notanurl")) == ""
    ensures DetermineServiceAfter(None) == ""
  {
    NotAnUrlWindow();
  }

  lemma ExampleLeadingHyphen()
    ensures DetermineServiceAfter(Some("-x.y")) == "-x"
  {
    assert "-x.y" == "-x" + "." + "y";
    ServiceOfHost("-x", "y");
    CutAtHyphenShape("-x");
  }
}
