/** The list join of ListJoin.cs: a `first` flag puts ", " before every element but the first. */
module ListJoin {
  import opened Wrappers
  import opened Text

  /** `StringBuilder.Append(s)` of a possibly null string: null appends nothing. */
  function AsText(s: Option<string>): string {
    match s
    case None => ""
    case Some(t) => t
  }

  /** How `string.Join` reads the elements: null as "". */
  function Texts(strings: seq<Option<string>>): (r: seq<string>)
    ensures |r| == |strings|
    ensures forall i :: 0 <= i < |strings| ==> r[i] == AsText(strings[i])
  {
    seq(|strings|, i requires 0 <= i < |strings| => AsText(strings[i]))
  }

  /** The private `Join(List<String>)`, lines 28-42: equal to `string.Join(", ", strings)`
      of line 26 on every list, empty and null elements included. */
  method Join(strings: seq<Option<string>>) returns (r: string)
    ensures r == Text.Join(", ", Texts(strings))
  {
    var result := "";
    var first := true;
    for i := 0 to |strings|
      invariant first <==> i == 0
      invariant result == Text.Join(", ", Texts(strings[..i]))
    {
      if !first {
        result := result + ", ";
      }
      JoinStep(strings[..i], strings[i]);
      assert strings[..i + 1] == strings[..i] + [strings[i]];
      result := result + AsText(strings[i]);
      first := false;
    }
    assert strings[..|strings|] == strings;
    r := result;
  }

  /** One more element adds ", " and the element, except to the empty list. */
  lemma JoinStep(strings: seq<Option<string>>, s: Option<string>)
    ensures Text.Join(", ", Texts(strings + [s])) ==
      if |strings| == 0 then AsText(s) else Text.Join(", ", Texts(strings)) + ", " + AsText(s)
  {
    assert Texts(strings + [s]) == Texts(strings) + [AsText(s)];
    if |strings| > 0 {
      JoinSnoc(", ", Texts(strings), AsText(s));
    }
  }

  /** The empty list gives "", one element gives that element, and n >= 1 elements give
      their lengths plus 2 * (n - 1). */
  lemma JoinShape(strings: seq<Option<string>>)
    ensures strings == [] ==> Text.Join(", ", Texts(strings)) == ""
    ensures |strings| == 1 ==> Text.Join(", ", Texts(strings)) == AsText(strings[0])
    ensures |strings| >= 1 ==> |Text.Join(", ", Texts(strings))| == SumLengths(Texts(strings)) + 2 * (|strings| - 1)
  {
    if |strings| >= 1 {
      JoinLength(", ", Texts(strings));
    }
  }
}
