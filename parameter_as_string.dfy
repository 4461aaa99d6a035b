/** The query-parameter canonicaliser of ParameterAsString.cs: an ordinal-sorted collection
    of named values is expanded into (key, value) pairs, sorting list values in place, and
    the pairs with a value are written as `key=encoded` joined by '&'. */
module ParameterAsString {
  import opened Wrappers
  import opened Text
  import opened Ordering
  import UrlEncode

  /** The value kinds of the collection. `UnsupportedParameterValue` stands for any other
      subclass of `ParameterValue`; it carries the type's full name. */
  datatype ParameterValue =
    | StringParameterValue(text: Option<string>)
    | StringListParameterValue(strings: seq<string>)
    | DoubleListParameterValue(doubles: seq<real>)
    | UnsupportedParameterValue(typeName: string)

  datatype Parameter = Parameter(name: string, value: ParameterValue)

  datatype Pair = Pair(key: string, value: Option<string>)

  datatype Error = AmazonClientException(message: string)

  const UnsupportedPrefix: string := "Unsupported parameter value type '"

  // ----- the sorted dictionary -----

  /** Entries in strictly ascending ordinal order of their names, so names are unique. */
  predicate StrictlyOrdered(es: seq<Parameter>) {
    forall i, j :: 0 <= i < j < |es| ==> OrdinalLess(es[i].name, es[j].name)
  }

  function Keys(es: seq<Parameter>): set<string> {
    set i | 0 <= i < |es| :: es[i].name
  }

  /** Where `SortedDictionary.Add` places a new key. */
  function InsertParameter(es: seq<Parameter>, p: Parameter): seq<Parameter> {
    if |es| == 0 then [p]
    else if OrdinalLess(p.name, es[0].name) then [p] + es
    else [es[0]] + InsertParameter(es[1..], p)
  }

  lemma KeysCons(x: Parameter, es: seq<Parameter>)
    ensures Keys([x] + es) == {x.name} + Keys(es)
  {
    var r := [x] + es;
    forall k | k in Keys(r) ensures k in {x.name} + Keys(es) {
      var i :| 0 <= i < |r| && r[i].name == k;
      if i > 0 {
        assert es[i - 1].name == k;
      }
    }
    forall k | k in Keys(es) ensures k in Keys(r) {
      var i :| 0 <= i < |es| && es[i].name == k;
      assert r[i + 1].name == k;
    }
    assert r[0].name == x.name;
  }

  lemma OrderedTail(es: seq<Parameter>)
    requires |es| > 0 && StrictlyOrdered(es)
    ensures StrictlyOrdered(es[1..])
    ensures forall j :: 0 <= j < |es[1..]| ==> OrdinalLess(es[0].name, es[1..][j].name)
  {
    forall i, j | 0 <= i < j < |es[1..]| ensures OrdinalLess(es[1..][i].name, es[1..][j].name) {
      assert es[1..][i] == es[i + 1] && es[1..][j] == es[j + 1];
    }
    forall j | 0 <= j < |es[1..]| ensures OrdinalLess(es[0].name, es[1..][j].name) {
      assert es[1..][j] == es[j + 1];
    }
  }

  /** A name below the first name is below every name. */
  lemma BelowFirst(p: Parameter, es: seq<Parameter>)
    requires |es| > 0 && StrictlyOrdered(es) && OrdinalLess(p.name, es[0].name)
    ensures StrictlyOrdered([p] + es)
  {
    var r := [p] + es;
    forall j | 0 < j < |r| ensures OrdinalLess(p.name, r[j].name) {
      if j > 1 {
        assert OrdinalLess(es[0].name, es[j - 1].name);
        OrdinalTransitive(p.name, es[0].name, es[j - 1].name);
        if p.name == es[j - 1].name {
          OrdinalAntisymmetric(p.name, es[0].name);
        }
      }
    }
  }

  /** Every element of `rest` is one of `es` or `p`, all of which lie above `x`. */
  lemma AboveHead(x: Parameter, es: seq<Parameter>, p: Parameter, rest: seq<Parameter>)
    requires StrictlyOrdered(rest) && multiset(rest) == multiset(es) + multiset{p}
    requires OrdinalLess(x.name, p.name)
    requires forall j :: 0 <= j < |es| ==> OrdinalLess(x.name, es[j].name)
    ensures StrictlyOrdered([x] + rest)
  {
    var r := [x] + rest;
    forall j | 0 < j < |r| ensures OrdinalLess(x.name, r[j].name) {
      assert r[j] == rest[j - 1];
      assert r[j] in multiset(rest);
      if r[j] != p {
        assert r[j] in multiset(es);
        var i :| 0 <= i < |es| && es[i] == r[j];
      }
    }
  }

  lemma {:induction false} InsertParameterCorrect(es: seq<Parameter>, p: Parameter)
    requires StrictlyOrdered(es) && p.name !in Keys(es)
    ensures StrictlyOrdered(InsertParameter(es, p))
    ensures multiset(InsertParameter(es, p)) == multiset(es) + multiset{p}
    ensures Keys(InsertParameter(es, p)) == Keys(es) + {p.name}
    decreases |es|
  {
    if |es| == 0 {
    } else if OrdinalLess(p.name, es[0].name) {
      BelowFirst(p, es);
      KeysCons(p, es);
    } else {
      var x, tail := es[0], es[1..];
      FirstSplit(es);
      KeysCons(x, tail);
      OrderedTail(es);
      InsertParameterCorrect(tail, p);
      assert OrdinalLess(x.name, p.name) by {
        OrdinalTotal(p.name, x.name);
        assert x.name != p.name;
      }
      InsertAbove(x, tail, p);
    }
  }

  /** The step of `InsertParameterCorrect` when the new name goes after the head `x`. */
  lemma InsertAbove(x: Parameter, tail: seq<Parameter>, p: Parameter)
    requires OrdinalLess(x.name, p.name)
    requires forall j :: 0 <= j < |tail| ==> OrdinalLess(x.name, tail[j].name)
    requires StrictlyOrdered(InsertParameter(tail, p))
    requires multiset(InsertParameter(tail, p)) == multiset(tail) + multiset{p}
    requires Keys(InsertParameter(tail, p)) == Keys(tail) + {p.name}
    ensures StrictlyOrdered([x] + InsertParameter(tail, p))
    ensures multiset([x] + InsertParameter(tail, p)) == multiset([x] + tail) + multiset{p}
    ensures Keys([x] + InsertParameter(tail, p)) == Keys([x] + tail) + {p.name}
  {
    var rest := InsertParameter(tail, p);
    AboveHead(x, tail, p, rest);
    KeysCons(x, rest);
    KeysCons(x, tail);
    ConsMultiset(x, rest);
    ConsMultiset(x, tail);
  }

  lemma ConsMultiset(x: Parameter, s: seq<Parameter>)
    ensures multiset([x] + s) == multiset{x} + multiset(s)
  {
  }

  // ----- enumeration -----

  /** Lines 140 and 146: the stored list after `Sort`; other values are left as they are. */
  function SortValue(v: ParameterValue): ParameterValue {
    match v
    case StringListParameterValue(xs) => StringListParameterValue(SortBy(xs, OrdinalLessEq))
    case DoubleListParameterValue(ds) => DoubleListParameterValue(SortBy(ds, RealLessEq))
    case _ => v
  }

  function SortEntry(p: Parameter): Parameter {
    Parameter(p.name, SortValue(p.value))
  }

  /** The pairs a value yields in its stored order (lines 136, 141-142 and 147-148). */
  function ValuePairs(name: string, v: ParameterValue, format: real -> string): seq<Pair> {
    match v
    case StringParameterValue(s) => [Pair(name, s)]
    case StringListParameterValue(xs) => seq(|xs|, i requires 0 <= i < |xs| => Pair(name, Some(xs[i])))
    case DoubleListParameterValue(ds) => seq(|ds|, i requires 0 <= i < |ds| => Pair(name, Some(format(ds[i]))))
    case UnsupportedParameterValue(_) => []
  }

  /** One entry of the `switch` at lines 133-152. */
  function EntryResult(p: Parameter, format: real -> string): Result<seq<Pair>, Error> {
    match p.value
    case UnsupportedParameterValue(t) => Failure(AmazonClientException(UnsupportedPrefix + t + "'"))
    case _ => Success(ValuePairs(p.name, SortValue(p.value), format))
  }

  /** The pairs `GetParametersEnumerable` yields until it throws, or the exception. */
  function Enumerate(es: seq<Parameter>, format: real -> string): Result<seq<Pair>, Error>
    decreases |es|
  {
    if |es| == 0 then Success([])
    else
      match Enumerate(es[..|es| - 1], format)
      case Failure(e) => Failure(e)
      case Success(ps) =>
        match EntryResult(es[|es| - 1], format)
        case Failure(e) => Failure(e)
        case Success(qs) => Success(ps + qs)
  }

  /** The index of the first entry the enumeration cannot handle, or the length. */
  function FirstUnsupported(es: seq<Parameter>): (k: nat)
    ensures k <= |es|
    ensures forall i :: 0 <= i < k ==> !es[i].value.UnsupportedParameterValue?
    ensures k < |es| ==> es[k].value.UnsupportedParameterValue?
    decreases |es|
  {
    if |es| == 0 then 0
    else
      var k := FirstUnsupported(es[..|es| - 1]);
      if k < |es| - 1 then k
      else if es[|es| - 1].value.UnsupportedParameterValue? then |es| - 1
      else |es|
  }

  /** The stored entries after a full enumeration: every list the enumeration reached is
      sorted; what follows an unsupported entry is not reached. */
  function SortLists(es: seq<Parameter>): seq<Parameter> {
    var k := FirstUnsupported(es);
    seq(|es|, i requires 0 <= i < |es| => if i < k then SortEntry(es[i]) else es[i])
  }

  /** Lines 79-155: `SortedDictionary<string, ParameterValue>` with the ordinal comparer. */
  class ParameterCollection {
    var entries: seq<Parameter>

    ghost predicate Valid()
      reads this
    {
      StrictlyOrdered(entries)
    }

    /** Lines 84-85. */
    constructor()
      ensures Valid() && entries == []
    {
      entries := [];
    }

    /** The inherited `Add(key, value)`: a key that is already present throws
        `ArgumentException`, modelled as `false` with nothing changed. */
    method Add(key: string, value: ParameterValue) returns (added: bool)
      requires Valid()
      modifies this
      ensures Valid()
      ensures added <==> key !in old(Keys(entries))
      ensures added ==> multiset(entries) == old(multiset(entries)) + multiset{Parameter(key, value)}
      ensures added ==> Keys(entries) == old(Keys(entries)) + {key}
      ensures !added ==> entries == old(entries)
    {
      if key in Keys(entries) {
        added := false;
      } else {
        InsertParameterCorrect(entries, Parameter(key, value));
        entries := InsertParameter(entries, Parameter(key, value));
        added := true;
      }
    }

    /** Lines 92-95. */
    method AddString(key: string, value: Option<string>) returns (added: bool)
      requires Valid()
      modifies this
      ensures Valid()
      ensures added <==> key !in old(Keys(entries))
      ensures added ==> multiset(entries) == old(multiset(entries)) + multiset{Parameter(key, StringParameterValue(value))}
      ensures !added ==> entries == old(entries)
    {
      added := Add(key, StringParameterValue(value));
    }

    /** Lines 102-105. */
    method AddStringList(key: string, values: seq<string>) returns (added: bool)
      requires Valid()
      modifies this
      ensures Valid()
      ensures added <==> key !in old(Keys(entries))
      ensures added ==> multiset(entries) == old(multiset(entries)) + multiset{Parameter(key, StringListParameterValue(values))}
      ensures !added ==> entries == old(entries)
    {
      added := Add(key, StringListParameterValue(values));
    }

    /** Lines 112-115. */
    method AddDoubleList(key: string, values: seq<real>) returns (added: bool)
      requires Valid()
      modifies this
      ensures Valid()
      ensures added <==> key !in old(Keys(entries))
      ensures added ==> multiset(entries) == old(multiset(entries)) + multiset{Parameter(key, DoubleListParameterValue(values))}
      ensures !added ==> entries == old(entries)
    {
      added := Add(key, DoubleListParameterValue(values));
    }

    /** One pass of the `switch` at lines 133-152 on entry `k`: a list is sorted where it is
        stored, then its pairs are produced. */
    method YieldEntry(k: nat, format: real -> string) returns (r: Result<seq<Pair>, Error>)
      requires k < |entries|
      modifies this
      ensures r == EntryResult(old(entries[k]), format)
      ensures entries == old(entries)[k := SortEntry(old(entries[k]))]
    {
      var name := entries[k].name;
      match entries[k].value {
        case StringParameterValue(s) =>
          r := Success([Pair(name, s)]);
        case StringListParameterValue(xs) =>
          var sorted := SortBy(xs, OrdinalLessEq);
          entries := entries[k := Parameter(name, StringListParameterValue(sorted))];
          r := Success(ValuePairs(name, StringListParameterValue(sorted), format));
        case DoubleListParameterValue(ds) =>
          var sorted := SortBy(ds, RealLessEq);
          entries := entries[k := Parameter(name, DoubleListParameterValue(sorted))];
          r := Success(ValuePairs(name, DoubleListParameterValue(sorted), format));
        case UnsupportedParameterValue(t) =>
          r := Failure(AmazonClientException(UnsupportedPrefix + t + "'"));
      }
    }

    /** Lines 126-154, run to the end: the pairs in key order, or the exception, and the
        lists the enumeration reached are left sorted in the collection. */
    method GetParametersEnumerable(format: real -> string) returns (r: Result<seq<Pair>, Error>)
      modifies this
      ensures r == Enumerate(old(entries), format)
      ensures entries == SortLists(old(entries))
      ensures old(Valid()) ==> Valid()
    {
      var pairs: seq<Pair> := [];
      var k := 0;
      while k < |entries|
        invariant SortedUpTo(old(entries), entries, k)
        invariant Enumerate(old(entries)[..k], format) == Success(pairs)
      {
        ghost var before := entries;
        var step := YieldEntry(k, format);
        EnumerateStep(old(entries), k, format);
        SortedUpToStep(old(entries), before, k, entries);
        match step {
          case Failure(e) =>
            EnumerateStopsAtFailure(old(entries), k + 1, format);
            r := step;
            SortListsKeepsNames(old(entries));
            return;
          case Success(qs) =>
            pairs := pairs + qs;
        }
        k := k + 1;
      }
      assert old(entries)[..k] == old(entries);
      r := Success(pairs);
      SortedUpToDone(old(entries), entries);
      SortListsKeepsNames(old(entries));
    }

    /** Lines 121-124: the enumeration collected into a list. */
    method GetSortedParametersList(format: real -> string) returns (r: Result<seq<Pair>, Error>)
      modifies this
      ensures r == Enumerate(old(entries), format)
      ensures entries == SortLists(old(entries))
      ensures old(Valid()) ==> Valid()
    {
      r := GetParametersEnumerable(format);
    }
  }

  /** One more entry either stops the enumeration with its exception or appends its pairs. */
  lemma EnumerateStep(es: seq<Parameter>, k: nat, format: real -> string)
    requires k < |es| && Enumerate(es[..k], format).Success?
    ensures EntryResult(es[k], format).Failure? ==>
      Enumerate(es[..k + 1], format) == EntryResult(es[k], format)
    ensures EntryResult(es[k], format).Success? ==>
      Enumerate(es[..k + 1], format) == Success(Enumerate(es[..k], format).value + EntryResult(es[k], format).value)
  {
    assert es[..k + 1][..k] == es[..k];
  }

  lemma {:induction false} EnumerateStopsAtFailure(es: seq<Parameter>, k: nat, format: real -> string)
    requires k <= |es| && Enumerate(es[..k], format).Failure?
    ensures Enumerate(es, format) == Enumerate(es[..k], format)
    decreases |es| - k
  {
    if k < |es| {
      assert es[..k + 1][..k] == es[..k];
      EnumerateStopsAtFailure(es, k + 1, format);
    } else {
      assert es[..k] == es;
    }
  }

  lemma SortListsStopsAtFailure(es: seq<Parameter>, k: nat, stored: seq<Parameter>)
    requires k <= |es| == |stored|
    requires forall i :: 0 <= i < k ==> !es[i].value.UnsupportedParameterValue?
    requires k < |es| ==> es[k].value.UnsupportedParameterValue?
    requires forall i :: 0 <= i < k ==> stored[i] == SortEntry(es[i])
    requires k < |es| ==> stored[k] == SortEntry(es[k])
    requires forall i :: k < i < |es| ==> stored[i] == es[i]
    ensures stored == SortLists(es)
  {
    assert FirstUnsupported(es) == k;
  }

  /** The stored entries while the enumeration is at entry `k`: the lists before it sorted,
      the rest as they were. */
  ghost predicate SortedUpTo(orig: seq<Parameter>, cur: seq<Parameter>, k: nat) {
    && k <= |orig| == |cur|
    && (forall i :: 0 <= i < k ==> !orig[i].value.UnsupportedParameterValue?)
    && (forall i :: 0 <= i < k ==> cur[i] == SortEntry(orig[i]))
    && (forall i :: k <= i < |cur| ==> cur[i] == orig[i])
  }

  /** Yielding entry `k` either stops at an unsupported value, leaving `SortLists`, or moves on. */
  lemma SortedUpToStep(orig: seq<Parameter>, cur: seq<Parameter>, k: nat, next: seq<Parameter>)
    requires SortedUpTo(orig, cur, k) && k < |orig|
    requires next == cur[k := SortEntry(cur[k])]
    ensures orig[k].value.UnsupportedParameterValue? ==> next == SortLists(orig)
    ensures !orig[k].value.UnsupportedParameterValue? ==> SortedUpTo(orig, next, k + 1)
  {
    if orig[k].value.UnsupportedParameterValue? {
      SortListsStopsAtFailure(orig, k, next);
    }
  }

  lemma SortedUpToDone(orig: seq<Parameter>, cur: seq<Parameter>)
    requires SortedUpTo(orig, cur, |orig|)
    ensures cur == SortLists(orig)
  {
    SortListsStopsAtFailure(orig, |orig|, cur);
  }

  lemma SortListsKeepsNames(es: seq<Parameter>)
    ensures |SortLists(es)| == |es|
    ensures forall i :: 0 <= i < |es| ==> SortLists(es)[i].name == es[i].name
    ensures StrictlyOrdered(es) ==> StrictlyOrdered(SortLists(es))
  {
  }

  // ----- properties of the enumeration -----

  lemma ValuePairsKeys(name: string, v: ParameterValue, format: real -> string)
    ensures forall i :: 0 <= i < |ValuePairs(name, v, format)| ==> ValuePairs(name, v, format)[i].key == name
  {
  }

  /** The enumeration throws exactly when some entry has an unsupported value, and the
      message names the type of the first such entry. */
  lemma {:induction false} EnumerateFailsIffUnsupported(es: seq<Parameter>, format: real -> string)
    ensures Enumerate(es, format).Failure? <==> FirstUnsupported(es) < |es|
    ensures FirstUnsupported(es) < |es| ==>
      Enumerate(es, format) == Failure(AmazonClientException(UnsupportedPrefix + es[FirstUnsupported(es)].value.typeName + "'"))
    decreases |es|
  {
    if |es| > 0 {
      var init := es[..|es| - 1];
      EnumerateFailsIffUnsupported(init, format);
      if FirstUnsupported(init) < |init| {
        assert es[FirstUnsupported(init)] == init[FirstUnsupported(init)];
      }
    }
  }

  lemma {:induction false} KeysBounded(es: seq<Parameter>, bound: string, format: real -> string)
    requires forall m :: 0 <= m < |es| ==> OrdinalLessEq(es[m].name, bound)
    requires Enumerate(es, format).Success?
    ensures forall i :: 0 <= i < |Enumerate(es, format).value| ==> OrdinalLessEq(Enumerate(es, format).value[i].key, bound)
    decreases |es|
  {
    if |es| > 0 {
      var init := es[..|es| - 1];
      var last := es[|es| - 1];
      assert forall m :: 0 <= m < |init| ==> init[m] == es[m];
      KeysBounded(init, bound, format);
      ValuePairsKeys(last.name, SortValue(last.value), format);
    }
  }

  /** Pairs come in ascending ordinal order of their keys (lines 79-85 and 128). */
  lemma {:induction false} EnumerateKeysOrdered(es: seq<Parameter>, format: real -> string)
    requires StrictlyOrdered(es) && Enumerate(es, format).Success?
    ensures var ps := Enumerate(es, format).value;
      forall i, j :: 0 <= i < j < |ps| ==> OrdinalLessEq(ps[i].key, ps[j].key)
    decreases |es|
  {
    if |es| > 0 {
      var init := es[..|es| - 1];
      var last := es[|es| - 1];
      assert StrictlyOrdered(init) by {
        assert forall m :: 0 <= m < |init| ==> init[m] == es[m];
      }
      EnumerateKeysOrdered(init, format);
      assert forall m :: 0 <= m < |init| ==> OrdinalLessEq(init[m].name, last.name) by {
        assert forall m :: 0 <= m < |init| ==> init[m] == es[m];
      }
      KeysBounded(init, last.name, format);
      ValuePairsKeys(last.name, SortValue(last.value), format);
      OrdinalReflexive(last.name);
      KeysAscendingConcat(Enumerate(init, format).value, EntryResult(last, format).value, last.name);
    }
  }

  /** Pairs in ascending key order, followed by pairs whose key bounds them all. */
  lemma KeysAscendingConcat(ps: seq<Pair>, qs: seq<Pair>, bound: string)
    requires forall i, j :: 0 <= i < j < |ps| ==> OrdinalLessEq(ps[i].key, ps[j].key)
    requires forall i :: 0 <= i < |ps| ==> OrdinalLessEq(ps[i].key, bound)
    requires forall i :: 0 <= i < |qs| ==> qs[i].key == bound
    requires OrdinalLessEq(bound, bound)
    ensures forall i, j :: 0 <= i < j < |ps + qs| ==> OrdinalLessEq((ps + qs)[i].key, (ps + qs)[j].key)
  {
    var rs := ps + qs;
    forall i, j | 0 <= i < j < |rs| ensures OrdinalLessEq(rs[i].key, rs[j].key) {
      if j < |ps| {
        assert rs[i] == ps[i] && rs[j] == ps[j];
      } else if i < |ps| {
        assert rs[i] == ps[i] && rs[j] == qs[j - |ps|];
      } else {
        assert rs[i] == qs[i - |ps|] && rs[j] == qs[j - |ps|];
      }
    }
  }

  /** The pairs of `ps` with key `k`, in order. */
  function WithKey(ps: seq<Pair>, k: string): seq<Pair>
    decreases |ps|
  {
    if |ps| == 0 then []
    else WithKey(ps[..|ps| - 1], k) + (if ps[|ps| - 1].key == k then [ps[|ps| - 1]] else [])
  }

  lemma {:induction false} WithKeyConcat(a: seq<Pair>, b: seq<Pair>, k: string)
    ensures WithKey(a + b, k) == WithKey(a, k) + WithKey(b, k)
    decreases |b|
  {
    if |b| == 0 {
      assert a + b == a;
    } else {
      assert (a + b)[..|a + b| - 1] == a + b[..|b| - 1];
      WithKeyConcat(a, b[..|b| - 1], k);
    }
  }

  lemma {:induction false} WithKeyUniform(ps: seq<Pair>, k: string)
    ensures (forall i :: 0 <= i < |ps| ==> ps[i].key == k) ==> WithKey(ps, k) == ps
    ensures (forall i :: 0 <= i < |ps| ==> ps[i].key != k) ==> WithKey(ps, k) == []
  {
    if forall i :: 0 <= i < |ps| ==> ps[i].key == k {
      WithKeyAll(ps, k);
    }
    if forall i :: 0 <= i < |ps| ==> ps[i].key != k {
      WithKeyNone(ps, k);
    }
  }

  lemma {:induction false} WithKeyAll(ps: seq<Pair>, k: string)
    requires forall i :: 0 <= i < |ps| ==> ps[i].key == k
    ensures WithKey(ps, k) == ps
    decreases |ps|
  {
    if |ps| > 0 {
      var init := ps[..|ps| - 1];
      assert forall i :: 0 <= i < |init| ==> init[i] == ps[i];
      WithKeyAll(init, k);
      Text.LastSplit(ps);
    }
  }

  lemma {:induction false} WithKeyNone(ps: seq<Pair>, k: string)
    requires forall i :: 0 <= i < |ps| ==> ps[i].key != k
    ensures WithKey(ps, k) == []
    decreases |ps|
  {
    if |ps| > 0 {
      var init := ps[..|ps| - 1];
      assert forall i :: 0 <= i < |init| ==> init[i] == ps[i];
      WithKeyNone(init, k);
    }
  }

  lemma KeysLast(es: seq<Parameter>)
    requires |es| > 0
    ensures Keys(es) == Keys(es[..|es| - 1]) + {es[|es| - 1].name}
  {
    var init := es[..|es| - 1];
    forall x | x in Keys(es) ensures x in Keys(init) + {es[|es| - 1].name} {
      var i :| 0 <= i < |es| && es[i].name == x;
      if i < |init| {
        assert init[i].name == x;
      }
    }
    forall x | x in Keys(init) ensures x in Keys(es) {
      var i :| 0 <= i < |init| && init[i].name == x;
      assert es[i].name == x;
    }
  }

  lemma LastNameFresh(es: seq<Parameter>)
    requires |es| > 0 && StrictlyOrdered(es)
    ensures es[|es| - 1].name !in Keys(es[..|es| - 1])
    ensures forall m :: 0 <= m < |es| - 1 ==> es[m].name != es[|es| - 1].name
  {
  }

  /** Each entry contributes exactly its own pairs under its name, its list sorted first;
      a name the collection does not hold has no pairs. */
  lemma PairsOfKey(es: seq<Parameter>, k: string, format: real -> string)
    requires StrictlyOrdered(es) && Enumerate(es, format).Success?
    ensures k !in Keys(es) ==> WithKey(Enumerate(es, format).value, k) == []
    ensures forall m :: 0 <= m < |es| && es[m].name == k ==>
      WithKey(Enumerate(es, format).value, k) == ValuePairs(k, SortValue(es[m].value), format)
  {
    if k !in Keys(es) {
      PairsOfAbsentKey(es, k, format);
    }
    forall m | 0 <= m < |es| && es[m].name == k
      ensures WithKey(Enumerate(es, format).value, k) == ValuePairs(k, SortValue(es[m].value), format)
    {
      PairsOfPresentKey(es, m, format);
    }
  }

  /** The last entry's pairs, split off the enumeration of the others. */
  lemma EnumerateLast(es: seq<Parameter>, k: string, format: real -> string)
    requires |es| > 0 && Enumerate(es, format).Success?
    ensures Enumerate(es[..|es| - 1], format).Success?
    ensures WithKey(Enumerate(es, format).value, k) ==
      WithKey(Enumerate(es[..|es| - 1], format).value, k) +
      (if es[|es| - 1].name == k then ValuePairs(k, SortValue(es[|es| - 1].value), format) else [])
  {
    var last := es[|es| - 1];
    var qs := EntryResult(last, format).value;
    WithKeyConcat(Enumerate(es[..|es| - 1], format).value, qs, k);
    ValuePairsKeys(last.name, SortValue(last.value), format);
    WithKeyUniform(qs, k);
  }

  lemma {:induction false} PairsOfAbsentKey(es: seq<Parameter>, k: string, format: real -> string)
    requires Enumerate(es, format).Success? && k !in Keys(es)
    ensures WithKey(Enumerate(es, format).value, k) == []
    decreases |es|
  {
    if |es| > 0 {
      KeysLast(es);
      EnumerateLast(es, k, format);
      PairsOfAbsentKey(es[..|es| - 1], k, format);
    }
  }

  lemma {:induction false} PairsOfPresentKey(es: seq<Parameter>, m: nat, format: real -> string)
    requires StrictlyOrdered(es) && Enumerate(es, format).Success? && m < |es|
    ensures WithKey(Enumerate(es, format).value, es[m].name) == ValuePairs(es[m].name, SortValue(es[m].value), format)
    decreases |es|
  {
    var init := es[..|es| - 1];
    var k := es[m].name;
    EnumerateLast(es, k, format);
    if m == |es| - 1 {
      LastNameFresh(es);
      PairsOfAbsentKey(init, k, format);
    } else {
      assert forall i :: 0 <= i < |init| ==> init[i] == es[i];
      assert StrictlyOrdered(init);
      assert init[m] == es[m];
      LastNameFresh(es);
      PairsOfPresentKey(init, m, format);
    }
  }

  /** Lines 139-142: a string list yields one pair per element, in ascending ordinal order,
      holding exactly the list's elements. */
  lemma StringListPairs(name: string, xs: seq<string>, format: real -> string)
    ensures var ps := ValuePairs(name, SortValue(StringListParameterValue(xs)), format);
      |ps| == |xs| && (forall i :: 0 <= i < |ps| ==> ps[i].key == name && ps[i].value.Some?) &&
      (forall i, j :: 0 <= i < j < |ps| ==> OrdinalLessEq(ps[i].value.value, ps[j].value.value)) &&
      multiset(seq(|ps|, i requires 0 <= i < |ps| => ps[i].value.value)) == multiset(xs)
  {
    OrdinalTotalOrder();
    SortByCorrect(xs, OrdinalLessEq);
    var ps := ValuePairs(name, SortValue(StringListParameterValue(xs)), format);
    assert seq(|ps|, i requires 0 <= i < |ps| => ps[i].value.value) == SortBy(xs, OrdinalLessEq);
  }

  /** Lines 144-148: a number list yields one pair per element, formatted, in ascending
      numeric order of the list's elements. */
  lemma DoubleListPairs(name: string, ds: seq<real>, format: real -> string)
    ensures var sorted := SortBy(ds, RealLessEq);
      var ps := ValuePairs(name, SortValue(DoubleListParameterValue(ds)), format);
      SortedBy(sorted, RealLessEq) && multiset(sorted) == multiset(ds) &&
      |ps| == |ds| && forall i :: 0 <= i < |ps| ==> ps[i] == Pair(name, Some(format(sorted[i])))
  {
    RealTotalOrder();
    SortByCorrect(ds, RealLessEq);
  }

  lemma SortValueIdempotent(v: ParameterValue)
    ensures SortValue(SortValue(v)) == SortValue(v)
  {
    match v {
      case StringListParameterValue(xs) =>
        OrdinalTotalOrder();
        SortIdempotent(xs, OrdinalLessEq);
      case DoubleListParameterValue(ds) =>
        RealTotalOrder();
        SortIdempotent(ds, RealLessEq);
      case _ =>
    }
  }

  lemma {:induction false} EnumerateCongruent(xs: seq<Parameter>, ys: seq<Parameter>, format: real -> string)
    requires |xs| == |ys|
    requires forall i :: 0 <= i < |xs| ==> EntryResult(xs[i], format) == EntryResult(ys[i], format)
    ensures Enumerate(xs, format) == Enumerate(ys, format)
    decreases |xs|
  {
    if |xs| > 0 {
      EnumerateCongruent(xs[..|xs| - 1], ys[..|ys| - 1], format);
    }
  }

  /** Lines 140 and 146 make a second enumeration see sorted lists: it yields the same
      pairs and leaves the collection as the first one left it. */
  lemma EnumerateTwice(es: seq<Parameter>, format: real -> string)
    ensures Enumerate(SortLists(es), format) == Enumerate(es, format)
    ensures SortLists(SortLists(es)) == SortLists(es)
  {
    var once := SortLists(es);
    forall i | 0 <= i < |es| ensures EntryResult(once[i], format) == EntryResult(es[i], format) {
      SortValueIdempotent(es[i].value);
    }
    EnumerateCongruent(once, es, format);
    var k := FirstUnsupported(es);
    assert FirstUnsupported(once) == k;
    forall i | 0 <= i < |es| ensures SortLists(once)[i] == once[i] {
      SortValueIdempotent(es[i].value);
    }
  }

  /** A null string value yields its pair; a string list yields its elements sorted. */
  lemma EnumerateExample(format: real -> string)
    ensures Enumerate([Parameter("a", StringParameterValue(None)), Parameter("b", StringListParameterValue(["y", "x"]))], format)
      == Success([Pair("a", None), Pair("b", Some("x")), Pair("b", Some("y"))])
  {
    var es := [Parameter("a", StringParameterValue(None)), Parameter("b", StringListParameterValue(["y", "x"]))];
    assert es[..1] == [es[0]] && es[..1][..0] == [];
    assert SortBy(["y", "x"], OrdinalLessEq) == ["x", "y"] by {
      assert ["y", "x"][1..] == ["x"];
      assert !OrdinalLessEq("y", "x");
    }
    assert Enumerate(es[..1][..0], format) == Success([]);
    assert EntryResult(es[..1][0], format) == Success([Pair("a", None)]);
    assert [] + [Pair("a", None)] == [Pair("a", None)];
    assert Enumerate(es[..1], format) == Success([Pair("a", None)]);
    assert es[..|es| - 1] == es[..1];
    var listPairs := ValuePairs("b", StringListParameterValue(["x", "y"]), format);
    assert listPairs == [Pair("b", Some("x")), Pair("b", Some("y"))];
    assert EntryResult(es[|es| - 1], format) == Success(listPairs);
    assert Enumerate(es, format) == Success([Pair("a", None)] + listPairs);
    assert [Pair("a", None)] + listPairs == [Pair("a", None), Pair("b", Some("x")), Pair("b", Some("y"))];
  }

  // ----- the canonical query string -----

  /** `AWSSDKUtils.UrlEncode(value, false)`: RFC 3986 encoding outside a path. */
  function EncodeValue(v: string): string {
    UrlEncode.Encode(3986, v, false, "")
  }

  /** Lines 45-48 and 66-69: what one pair adds to the builder. */
  function PairText(p: Pair): string {
    if p.value.Some? then p.key + "=" + EncodeValue(p.value.value) + "&" else ""
  }

  /** The builder after the loop over `ps`. */
  function Appended(ps: seq<Pair>): string
    decreases |ps|
  {
    if |ps| == 0 then "" else Appended(ps[..|ps| - 1]) + PairText(ps[|ps| - 1])
  }

  /** The fields of the query: `key=encoded` for each pair with a value, in order. */
  function Fields(ps: seq<Pair>): (r: seq<string>)
    ensures |r| <= |ps|
    ensures forall i :: 0 <= i < |r| ==> '=' in r[i]
    decreases |ps|
  {
    if |ps| == 0 then []
    else
      var last := ps[|ps| - 1];
      if last.value.Some? then
        var field := last.key + "=" + EncodeValue(last.value.value);
        assert field[|last.key|] == '=';
        Fields(ps[..|ps| - 1]) + [field]
      else Fields(ps[..|ps| - 1])
  }

  /** The canonical query string: the fields joined by '&'. */
  function CanonicalQuery(ps: seq<Pair>): string {
    Join("&", Fields(ps))
  }

  function QueryResult(r: Result<seq<Pair>, Error>): Result<string, Error> {
    match r
    case Success(ps) => Success(CanonicalQuery(ps))
    case Failure(e) => Failure(e)
  }

  lemma {:induction false} AppendedConcat(a: seq<Pair>, b: seq<Pair>)
    ensures Appended(a + b) == Appended(a) + Appended(b)
    decreases |b|
  {
    if |b| == 0 {
      assert a + b == a;
    } else {
      ConcatFront(a, b);
      AppendedConcat(a, b[..|b| - 1]);
      AppendedSame((a + b)[..|a + b| - 1], a + b[..|b| - 1]);
    }
  }

  /** Equal pair lists give equal builders; a lemma so that the solver does not unfold
      `Appended` while it proves the two lists equal. */
  lemma AppendedSame(s: seq<Pair>, t: seq<Pair>)
    requires s == t
    ensures Appended(s) == Appended(t)
  {
  }

  /** The builder is empty exactly when there is no field, and otherwise is the fields
      joined by '&' with one '&' more; removing the last character (lines 51-55 and 72-73)
      leaves the joined fields. */
  lemma {:induction false} AppendedIsJoin(ps: seq<Pair>)
    ensures Appended(ps) == "" <==> Fields(ps) == []
    ensures Fields(ps) != [] ==> Appended(ps) == CanonicalQuery(ps) + "&"
    decreases |ps|
  {
    if |ps| > 0 {
      var init := ps[..|ps| - 1];
      var last := ps[|ps| - 1];
      AppendedIsJoin(init);
      if last.value.Some? && Fields(init) != [] {
        JoinSnoc("&", Fields(init), last.key + "=" + EncodeValue(last.value.value));
      }
    }
  }

  /** Dropping the builder's trailing '&' (lines 70-73) leaves the canonical query. */
  lemma TrimmedQuery(ps: seq<Pair>, builder: string)
    requires builder == Appended(ps)
    ensures |builder| == 0 ==> CanonicalQuery(ps) == ""
    ensures |builder| > 0 ==> builder[..|builder| - 1] == CanonicalQuery(ps)
  {
    AppendedIsJoin(ps);
    if |builder| > 0 {
      assert builder == CanonicalQuery(ps) + "&";
    }
  }

  lemma JoinNonEmpty(sep: string, xs: seq<string>)
    requires |xs| > 0 && |xs[0]| > 0
    ensures |Join(sep, xs)| > 0
  {
  }

  /** The query is empty exactly when no pair has a value (lines 43 and 64 skip null values). */
  lemma CanonicalQueryEmpty(ps: seq<Pair>)
    ensures CanonicalQuery(ps) == "" <==> forall i :: 0 <= i < |ps| ==> ps[i].value.None?
  {
    FieldsEmpty(ps);
    if Fields(ps) != [] {
      JoinNonEmpty("&", Fields(ps));
    }
  }

  lemma {:induction false} FieldsEmpty(ps: seq<Pair>)
    ensures Fields(ps) == [] <==> forall i :: 0 <= i < |ps| ==> ps[i].value.None?
    decreases |ps|
  {
    if |ps| > 0 {
      FieldsEmpty(ps[..|ps| - 1]);
      assert forall i :: 0 <= i < |ps| - 1 ==> ps[..|ps| - 1][i] == ps[i];
    }
  }

  /** The encoding of one pair, with the value encoded as `UrlEncode.Encode` describes. */
  method AppendPair(data: string, p: Pair) returns (r: string)
    ensures r == data + PairText(p)
  {
    r := data;
    var value := p.value;
    if value.Some? {
      r := r + p.key + "=" + EncodeValue(value.value) + "&";
    }
  }

  lemma AppendedStep(ps: seq<Pair>, i: nat)
    requires i < |ps|
    ensures Appended(ps[..i + 1]) == Appended(ps[..i]) + PairText(ps[i])
  {
    assert ps[..i + 1][..i] == ps[..i];
  }

  /** The loop over pairs at lines 39-50 and 61-70. */
  method AppendPairs(data: string, ps: seq<Pair>) returns (r: string)
    ensures r == data + Appended(ps)
  {
    r := data;
    for i := 0 to |ps|
      invariant r == data + Appended(ps[..i])
    {
      AppendedStep(ps, i);
      r := AppendPair(r, ps[i]);
    }
    assert ps[..|ps|] == ps;
  }

  /** Lines 34-56: the pairs are collected first, then written. */
  method GetParametersAsStringBefore(parameterCollection: ParameterCollection, format: real -> string)
    returns (r: Result<string, Error>)
    modifies parameterCollection
    ensures r == QueryResult(Enumerate(old(parameterCollection.entries), format))
    ensures parameterCollection.entries == SortLists(old(parameterCollection.entries))
  {
    var sortedParameters := parameterCollection.GetSortedParametersList(format);
    match sortedParameters {
      case Failure(e) =>
        r := Failure(e);
      case Success(ps) =>
        var result := AppendPairs("", ps);
        AppendedIsJoin(ps);
        if |result| == 0 {
          r := Success("");
        } else {
          var query := CanonicalQuery(ps);
          assert result == query + "&";
          assert result[..|result| - 1] == query;
          r := Success(result[..|result| - 1]);
        }
    }
  }

  /** Lines 58-74: each entry's pairs are written as the enumeration yields them. */
  method GetParametersAsStringAfter(parameterCollection: ParameterCollection, format: real -> string)
    returns (r: Result<string, Error>)
    modifies parameterCollection
    ensures r == QueryResult(Enumerate(old(parameterCollection.entries), format))
    ensures parameterCollection.entries == SortLists(old(parameterCollection.entries))
  {
    ghost var orig := parameterCollection.entries;
    var parameterBuilder := "";
    ghost var pairs: seq<Pair> := [];
    var k := 0;
    while k < |parameterCollection.entries|
      invariant SortedUpTo(orig, parameterCollection.entries, k)
      invariant Enumerate(orig[..k], format) == Success(pairs)
      invariant parameterBuilder == Appended(pairs)
    {
      ghost var before := parameterCollection.entries;
      var step := parameterCollection.YieldEntry(k, format);
      EnumerateStep(orig, k, format);
      SortedUpToStep(orig, before, k, parameterCollection.entries);
      match step {
        case Failure(e) =>
          EnumerateStopsAtFailure(orig, k + 1, format);
          r := Failure(e);
          return;
        case Success(qs) =>
          parameterBuilder := AppendPairs(parameterBuilder, qs);
          AppendedConcat(pairs, qs);
          pairs := pairs + qs;
      }
      k := k + 1;
    }
    assert orig[..k] == orig;
    SortedUpToDone(orig, parameterCollection.entries);
    TrimmedQuery(pairs, parameterBuilder);
    var length := |parameterBuilder|;
    if length == 0 {
      r := Success("");
    } else {
      r := Success(parameterBuilder[..length - 1]);
    }
  }
}
