/**
 * The exception handler that turns a validation exception into a 400
 * problem response. Failures are grouped by property name in order of first
 * appearance, and the groups become a dictionary keyed by the lower-cased
 * name; two names that differ only in case make the dictionary build throw.
 */
module ValidationHandler {
  import opened Common
  import opened Text
  import opened Validators

  const ValidationTitle: string := "One or more validation errors occurred."

  datatype Exception = ValidationException(errors: seq<ValidationFailure>) | OtherException(message: string)

  datatype ProblemDetails = ProblemDetails(title: string, status: int, errors: map<string, seq<string>>)

  /**
   * What the handler does: declines, writes a problem response (reporting
   * whether the writer took it), or throws while building the dictionary.
   */
  datatype Outcome =
    | NotHandled
    | Written(statusCode: int, details: ProblemDetails, handled: bool)
    | DictionaryFault

  predicate HasName(errs: seq<ValidationFailure>, name: string) {
    exists e :: e in errs && e.propertyName == name
  }

  /** Every message, in order. */
  function Messages(errs: seq<ValidationFailure>): (r: seq<string>)
    ensures |r| == |errs|
  {
    if |errs| == 0 then [] else [errs[0].errorMessage] + Messages(errs[1..])
  }

  /** The messages of the failures for `name`, in order: one group's elements. */
  function MessagesFor(errs: seq<ValidationFailure>, name: string): (r: seq<string>)
    ensures |r| <= |errs|
  {
    if |errs| == 0 then []
    else
      (if errs[0].propertyName == name then [errs[0].errorMessage] else []) + MessagesFor(errs[1..], name)
  }

  /** The failures for every other name, in order. */
  function Without(errs: seq<ValidationFailure>, name: string): (r: seq<ValidationFailure>)
    ensures |r| <= |errs|
    ensures |errs| > 0 && errs[0].propertyName == name ==> |r| < |errs|
  {
    if |errs| == 0 then []
    else
      (if errs[0].propertyName == name then [] else [errs[0]]) + Without(errs[1..], name)
  }

  lemma {:induction false} WithoutMembers(errs: seq<ValidationFailure>, name: string)
    ensures forall e :: e in Without(errs, name) <==> e in errs && e.propertyName != name
    decreases |errs|
  {
    if |errs| > 0 {
      WithoutMembers(errs[1..], name);
      assert forall e :: e in errs <==> e == errs[0] || e in errs[1..];
    }
  }

  lemma {:induction false} MessagesForWithout(errs: seq<ValidationFailure>, a: string, b: string)
    requires a != b
    ensures MessagesFor(Without(errs, a), b) == MessagesFor(errs, b)
    decreases |errs|
  {
    if |errs| > 0 {
      MessagesForWithout(errs[1..], a, b);
      var w := Without(errs, a);
      if errs[0].propertyName != a {
        assert w[0] == errs[0] && w[1..] == Without(errs[1..], a);
      } else {
        assert w == Without(errs[1..], a);
      }
    }
  }

  lemma MessagesCons(x: ValidationFailure, rest: seq<ValidationFailure>)
    ensures Messages([x] + rest) == [x.errorMessage] + Messages(rest)
  {
    assert ([x] + rest)[1..] == rest;
  }

  /** The split of the failures' messages into one name's and the rest's holds for `errs`. */
  predicate SplitHolds(errs: seq<ValidationFailure>, name: string) {
    multiset(Messages(errs)) == multiset(MessagesFor(errs, name)) + multiset(Messages(Without(errs, name)))
  }

  /** A first failure for another name goes to the rest. */
  lemma SplitStepOther(errs: seq<ValidationFailure>, name: string)
    requires |errs| > 0 && errs[0].propertyName != name
    requires SplitHolds(errs[1..], name)
    ensures SplitHolds(errs, name)
  {
    var x, tl := errs[0], errs[1..];
    assert multiset(Messages(errs)) == multiset{x.errorMessage} + multiset(Messages(tl)) by {
      MessagesCons(x, tl);
      assert errs == [x] + tl;
    }
    assert multiset(Messages(Without(errs, name))) == multiset{x.errorMessage} + multiset(Messages(Without(tl, name))) by {
      assert Without(errs, name) == [x] + Without(tl, name);
      MessagesCons(x, Without(tl, name));
    }
    assert MessagesFor(errs, name) == MessagesFor(tl, name);
  }

  /** A first failure for the name goes to its messages. */
  lemma SplitStepSame(errs: seq<ValidationFailure>, name: string)
    requires |errs| > 0 && errs[0].propertyName == name
    requires SplitHolds(errs[1..], name)
    ensures SplitHolds(errs, name)
  {
    var x, tl := errs[0], errs[1..];
    assert multiset(Messages(errs)) == multiset{x.errorMessage} + multiset(Messages(tl)) by {
      MessagesCons(x, tl);
      assert errs == [x] + tl;
    }
    assert multiset(MessagesFor(errs, name)) == multiset{x.errorMessage} + multiset(MessagesFor(tl, name)) by {
      assert MessagesFor(errs, name) == [x.errorMessage] + MessagesFor(tl, name);
    }
    assert Without(errs, name) == Without(tl, name);
  }

  lemma {:induction false} SplitMessages(errs: seq<ValidationFailure>, name: string)
    ensures multiset(Messages(errs)) == multiset(MessagesFor(errs, name)) + multiset(Messages(Without(errs, name)))
    decreases |errs|
  {
    if |errs| > 0 {
      SplitMessages(errs[1..], name);
      if errs[0].propertyName != name {
        SplitStepOther(errs, name);
      } else {
        SplitStepSame(errs, name);
      }
    }
  }

  /** What grouping promises of its groups `g` for the failures `errs`. */
  predicate GroupsOf(errs: seq<ValidationFailure>, g: seq<(string, seq<string>)>) {
    && (forall i :: 0 <= i < |g| ==> HasName(errs, g[i].0) && g[i].1 == MessagesFor(errs, g[i].0))
    && (forall e :: e in errs ==> exists i :: 0 <= i < |g| && g[i].0 == e.propertyName)
    && (forall i, j :: 0 <= i < j < |g| ==> g[i].0 != g[j].0)
  }

  /** A name left after removing `n` is another name of the failures, with the same messages. */
  lemma OtherName(errs: seq<ValidationFailure>, n: string, x: string)
    requires HasName(Without(errs, n), x)
    ensures x != n && HasName(errs, x)
    ensures MessagesFor(Without(errs, n), x) == MessagesFor(errs, x)
  {
    WithoutMembers(errs, n);
    var e :| e in Without(errs, n) && e.propertyName == x;
    assert e in errs;
    MessagesForWithout(errs, n, x);
  }

  /** Every group of the cons list is a name of the failures holding exactly its messages. */
  lemma ConsGroupMessages(errs: seq<ValidationFailure>, n: string, rest: seq<(string, seq<string>)>, g: seq<(string, seq<string>)>)
    requires g == [(n, MessagesFor(errs, n))] + rest
    requires forall i :: 0 <= i < |rest| ==> HasName(Without(errs, n), rest[i].0)
    requires forall i :: 0 <= i < |rest| ==> rest[i].1 == MessagesFor(Without(errs, n), rest[i].0)
    requires HasName(errs, n)
    ensures forall i :: 0 <= i < |g| ==> HasName(errs, g[i].0) && g[i].1 == MessagesFor(errs, g[i].0)
  {
    forall i | 0 <= i < |g| ensures HasName(errs, g[i].0) && g[i].1 == MessagesFor(errs, g[i].0) {
      if i > 0 {
        assert g[i] == rest[i - 1];
        OtherName(errs, n, rest[i - 1].0);
      }
    }
  }

  /** Every failure's name has a group in the cons list. */
  lemma ConsGroupCovers(errs: seq<ValidationFailure>, n: string, rest: seq<(string, seq<string>)>, g: seq<(string, seq<string>)>)
    requires g == [(n, MessagesFor(errs, n))] + rest
    requires forall e :: e in Without(errs, n) ==> exists i :: 0 <= i < |rest| && rest[i].0 == e.propertyName
    ensures forall e :: e in errs ==> exists i :: 0 <= i < |g| && g[i].0 == e.propertyName
  {
    WithoutMembers(errs, n);
    forall e | e in errs ensures exists i :: 0 <= i < |g| && g[i].0 == e.propertyName {
      if e.propertyName == n {
        assert g[0].0 == n;
      } else {
        assert e in Without(errs, n);
        var i :| 0 <= i < |rest| && rest[i].0 == e.propertyName;
        assert g[i + 1].0 == e.propertyName;
      }
    }
  }

  /** The cons list names no group twice. */
  lemma ConsGroupDistinct(errs: seq<ValidationFailure>, n: string, rest: seq<(string, seq<string>)>, g: seq<(string, seq<string>)>)
    requires g == [(n, MessagesFor(errs, n))] + rest
    requires forall i :: 0 <= i < |rest| ==> HasName(Without(errs, n), rest[i].0)
    requires forall i, j :: 0 <= i < j < |rest| ==> rest[i].0 != rest[j].0
    ensures forall i, j :: 0 <= i < j < |g| ==> g[i].0 != g[j].0
  {
    forall i, j | 0 <= i < j < |g| ensures g[i].0 != g[j].0 {
      assert g[j] == rest[j - 1];
      if i > 0 {
        assert g[i] == rest[i - 1];
      } else {
        OtherName(errs, n, rest[j - 1].0);
      }
    }
  }

  /** The first name's group, put in front of the groups of the other failures, groups all of them. */
  lemma ConsGroup(errs: seq<ValidationFailure>, n: string, rest: seq<(string, seq<string>)>)
    requires |errs| > 0 && n == errs[0].propertyName
    requires GroupsOf(Without(errs, n), rest)
    ensures GroupsOf(errs, [(n, MessagesFor(errs, n))] + rest)
  {
    assert errs[0] in errs;
    ConsGroupMessages(errs, n, rest, [(n, MessagesFor(errs, n))] + rest);
    ConsGroupCovers(errs, n, rest, [(n, MessagesFor(errs, n))] + rest);
    ConsGroupDistinct(errs, n, rest, [(n, MessagesFor(errs, n))] + rest);
  }

  /**
   * `GroupBy(e => e.PropertyName)`: one group per distinct name, in order of
   * first appearance, each holding that name's messages in order.
   */
  function Groups(errs: seq<ValidationFailure>): (g: seq<(string, seq<string>)>)
    ensures GroupsOf(errs, g)
    decreases |errs|
  {
    if |errs| == 0 then []
    else
      var n := errs[0].propertyName;
      var rest := Groups(Without(errs, n));
      ConsGroup(errs, n, rest);
      [(n, MessagesFor(errs, n))] + rest
  }

  /** The groups' messages, group after group. */
  function Flatten(g: seq<(string, seq<string>)>): seq<string> {
    if |g| == 0 then [] else g[0].1 + Flatten(g[1..])
  }

  /** Grouping neither drops nor repeats a message: the groups together hold exactly the failures' messages. */
  lemma {:induction false} GroupsPartitionMessages(errs: seq<ValidationFailure>)
    ensures multiset(Flatten(Groups(errs))) == multiset(Messages(errs))
    decreases |errs|
  {
    if |errs| > 0 {
      var n := errs[0].propertyName;
      GroupsPartitionMessages(Without(errs, n));
      SplitMessages(errs, n);
      assert Groups(errs)[1..] == Groups(Without(errs, n));
    }
  }

  predicate DistinctLowerKeys(g: seq<(string, seq<string>)>) {
    forall i, j :: 0 <= i < j < |g| ==> Lower(g[i].0) != Lower(g[j].0)
  }

  function LowerKeys(g: seq<(string, seq<string>)>): set<string> {
    set i | 0 <= i < |g| :: Lower(g[i].0)
  }

  /** Distinct keys for a list are distinct keys for all but its last group, plus a last key not met before. */
  lemma DistinctLowerKeysSnoc(g: seq<(string, seq<string>)>)
    requires |g| > 0
    ensures DistinctLowerKeys(g) <==>
      DistinctLowerKeys(g[..|g| - 1]) && Lower(g[|g| - 1].0) !in LowerKeys(g[..|g| - 1])
  {
    var init := g[..|g| - 1];
    if DistinctLowerKeys(init) && Lower(g[|g| - 1].0) !in LowerKeys(init) {
      forall i, j | 0 <= i < j < |g| ensures Lower(g[i].0) != Lower(g[j].0) {
        if j < |g| - 1 {
          assert init[i] == g[i] && init[j] == g[j];
        } else {
          assert init[i] == g[i];
        }
      }
    }
    if DistinctLowerKeys(g) {
      forall k | k in LowerKeys(init) ensures k != Lower(g[|g| - 1].0) {
        var i :| 0 <= i < |init| && k == Lower(init[i].0);
        assert init[i] == g[i];
      }
    }
  }

  lemma LowerKeysSnoc(g: seq<(string, seq<string>)>)
    requires |g| > 0
    ensures LowerKeys(g) == LowerKeys(g[..|g| - 1]) + {Lower(g[|g| - 1].0)}
  {
    var init := g[..|g| - 1];
    forall k | k in LowerKeys(g) ensures k in LowerKeys(init) + {Lower(g[|g| - 1].0)} {
      var i :| 0 <= i < |g| && k == Lower(g[i].0);
      if i < |g| - 1 { assert init[i] == g[i]; }
    }
    forall k | k in LowerKeys(init) ensures k in LowerKeys(g) {
      var i :| 0 <= i < |init| && k == Lower(init[i].0);
      assert init[i] == g[i];
    }
  }

  /** Adding the last group under a new key keeps every earlier group's entry. */
  lemma MapSnocValues(g: seq<(string, seq<string>)>, init: seq<(string, seq<string>)>,
                      m: map<string, seq<string>>, m2: map<string, seq<string>>)
    requires |g| > 0 && init == g[..|g| - 1]
    requires m.Keys == LowerKeys(init)
    requires forall i :: 0 <= i < |init| ==> m[Lower(init[i].0)] == init[i].1
    requires Lower(g[|g| - 1].0) !in m
    requires m2 == m[Lower(g[|g| - 1].0) := g[|g| - 1].1]
    ensures forall i :: 0 <= i < |g| ==> m2[Lower(g[i].0)] == g[i].1
  {
    forall i | 0 <= i < |g| ensures m2[Lower(g[i].0)] == g[i].1 {
      if i < |g| - 1 {
        assert init[i] == g[i];
        assert Lower(init[i].0) in LowerKeys(init);
      }
    }
  }

  /** `ToDictionary(g => g.Key.ToLowerInvariant(), ...)`: adding a key twice throws. */
  function ToDictionary(g: seq<(string, seq<string>)>): (r: Option<map<string, seq<string>>>)
    ensures r.Some? <==> DistinctLowerKeys(g)
    ensures r.Some? ==> r.value.Keys == LowerKeys(g)
    ensures r.Some? ==> forall i :: 0 <= i < |g| ==> r.value[Lower(g[i].0)] == g[i].1
    decreases |g|
  {
    if |g| == 0 then Some(map[])
    else
      var init := g[..|g| - 1];
      var last := g[|g| - 1];
      DistinctLowerKeysSnoc(g);
      match ToDictionary(init)
      case None => None
      case Some(m) =>
        if Lower(last.0) in m then None
        else
          LowerKeysSnoc(g);
          MapSnocValues(g, init, m, m[Lower(last.0) := last.1]);
          Some(m[Lower(last.0) := last.1])
  }

  /** No two property names differ only in case. */
  predicate NoCaseCollision(errs: seq<ValidationFailure>) {
    forall e1, e2 :: e1 in errs && e2 in errs && Lower(e1.propertyName) == Lower(e2.propertyName) ==>
      e1.propertyName == e2.propertyName
  }

  /** The dictionary build throws exactly when two names differ only in case. */
  lemma GroupKeysCollideIffNamesDo(errs: seq<ValidationFailure>)
    ensures DistinctLowerKeys(Groups(errs)) <==> NoCaseCollision(errs)
  {
    var g := Groups(errs);
    if DistinctLowerKeys(g) {
      forall e1, e2 | e1 in errs && e2 in errs && Lower(e1.propertyName) == Lower(e2.propertyName)
        ensures e1.propertyName == e2.propertyName
      {
        var i :| 0 <= i < |g| && g[i].0 == e1.propertyName;
        var j :| 0 <= j < |g| && g[j].0 == e2.propertyName;
        assert Lower(g[i].0) == Lower(g[j].0);
      }
    }
    if NoCaseCollision(errs) {
      forall i, j | 0 <= i < j < |g| ensures Lower(g[i].0) != Lower(g[j].0) {
        assert HasName(errs, g[i].0) && HasName(errs, g[j].0);
        var e1 :| e1 in errs && e1.propertyName == g[i].0;
        var e2 :| e2 in errs && e2.propertyName == g[j].0;
        assert g[i].0 != g[j].0;
      }
    }
  }

  /** The dictionary's keys are the failures' property names, lower-cased. */
  lemma GroupKeysAreNames(errs: seq<ValidationFailure>)
    ensures LowerKeys(Groups(errs)) == set e | e in errs :: Lower(e.propertyName)
  {
    var g := Groups(errs);
    forall k | k in LowerKeys(g) ensures k in set e | e in errs :: Lower(e.propertyName) {
      var i :| 0 <= i < |g| && k == Lower(g[i].0);
      assert HasName(errs, g[i].0);
      var e :| e in errs && e.propertyName == g[i].0;
    }
    forall e | e in errs ensures Lower(e.propertyName) in LowerKeys(g) {
      var i :| 0 <= i < |g| && g[i].0 == e.propertyName;
    }
  }

  /**
   * `TryHandleAsync`: anything but a validation exception is declined; a
   * validation exception becomes a 400 problem whose `errors` map each
   * lower-cased property name to that property's messages in order, unless
   * two names differ only in case, in which case the handler throws.
   * `writerAccepts` is what the problem-details writer reports.
   */
  function Handle(ex: Exception, writerAccepts: bool): (r: Outcome)
    ensures r.NotHandled? <==> ex.OtherException?
    ensures ex.ValidationException? ==> (r.DictionaryFault? <==> !NoCaseCollision(ex.errors))
    ensures r.Written? ==>
      && r.statusCode == StatusBadRequest && r.handled == writerAccepts
      && r.details.title == ValidationTitle && r.details.status == StatusBadRequest
    ensures r.Written? ==> r.details.errors.Keys == set e | e in ex.errors :: Lower(e.propertyName)
    ensures r.Written? ==> forall e :: e in ex.errors ==>
      r.details.errors[Lower(e.propertyName)] == MessagesFor(ex.errors, e.propertyName)
  {
    match ex
    case OtherException(_) => NotHandled
    case ValidationException(errs) =>
      var g := Groups(errs);
      GroupKeysCollideIffNamesDo(errs);
      GroupKeysAreNames(errs);
      match ToDictionary(g)
      case None => DictionaryFault
      case Some(m) =>
        assert forall e :: e in errs ==> m[Lower(e.propertyName)] == MessagesFor(errs, e.propertyName) by {
          forall e | e in errs ensures m[Lower(e.propertyName)] == MessagesFor(errs, e.propertyName) {
            var i :| 0 <= i < |g| && g[i].0 == e.propertyName;
          }
        }
        Written(StatusBadRequest, ProblemDetails(ValidationTitle, StatusBadRequest, m), writerAccepts)
  }
}
