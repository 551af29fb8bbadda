/** Rewriting and deleting fields of a JSON body by dotted path. */
module BodyRules {
  import opened Wrappers
  import opened Text

  datatype Json =
    | Null
    | Bool(b: bool)
    | Number(literal: string)
    | Str(s: string)
    | Arr(items: seq<Json>)
    | Obj(fields: map<string, Json>)

  type Path = seq<string>

  /** `Some` rewrites the field to a value, `None` deletes it. */
  datatype Rule = Rule(field: string, rewriteTo: Option<Json>)

  function PathOf(rule: Rule): (p: Path)
    ensures |p| >= 1
  {
    Split(rule.field, '.')
  }

  /** The value at a path; only objects have fields. */
  function Read(v: Json, path: Path): Option<Json> {
    if path == [] then Some(v)
    else if v.Obj? && path[0] in v.fields then Read(v.fields[path[0]], path[1..])
    else None
  }

  /** Writing through a reference to the place at `path`. */
  function Write(v: Json, path: Path, x: Json): Json {
    if path == [] then x
    else if v.Obj? && path[0] in v.fields then
      Obj(v.fields[path[0] := Write(v.fields[path[0]], path[1..], x)])
    else v
  }

  /** Setting or deleting one field of an object; other values have none. */
  function Edit(v: Json, key: string, rewrite: Option<Json>): Json {
    if !v.Obj? then v
    else if rewrite.Some? then Obj(v.fields[key := rewrite.value])
    else Obj(v.fields - {key})
  }

  /** What a rule does to a document. */
  function Apply(v: Json, path: Path, rewrite: Option<Json>): Json
    requires path != []
  {
    if |path| == 1 then Edit(v, path[0], rewrite)
    else if v.Obj? && path[0] in v.fields then
      Obj(v.fields[path[0] := Apply(v.fields[path[0]], path[1..], rewrite)])
    else v
  }

  function ApplyRule(v: Json, rule: Rule): Json {
    Apply(v, PathOf(rule), rule.rewriteTo)
  }

  function ApplyAll(v: Json, rules: seq<Rule>): Json
    decreases |rules|
  {
    if rules == [] then v else ApplyAll(ApplyRule(v, rules[0]), rules[1..])
  }

  /** The body being transformed. A `&mut` cursor into it is the path from the root. */
  class Transformer {
    var body: Json

    constructor (body: Json)
      ensures this.body == body
    {
      this.body := body;
    }

    method ApplyBodyRule(rule: Rule)
      modifies this
      ensures body == ApplyRule(old(body), rule)
    {
      var segments := PathOf(rule);
      var n := |segments| - 1;
      var cursor: Path := [];
      for i := 0 to n
        invariant body == old(body)
        invariant cursor == segments[..i]
        invariant Read(body, cursor).Some?
      {
        var next := cursor + [segments[i]];
        assert segments[..n][..i + 1] == next;
        if Read(body, next).None? {
          if Read(body, segments[..n]).Some? {
            ReadPrefix(body, segments[..n], i + 1);
          }
          ApplyIsWrite(body, segments, rule.rewriteTo);
          return;
        }
        cursor := next;
      }
      assert segments[..n] == cursor;
      ApplyIsWrite(body, segments, rule.rewriteTo);
      var place := Read(body, cursor).value;
      if place.Obj? {
        body := Write(body, cursor, Edit(place, segments[n], rule.rewriteTo));
      }
    }

    method ApplyBody(rules: seq<Rule>)
      modifies this
      ensures body == ApplyAll(old(body), rules)
    {
      for i := 0 to |rules|
        invariant ApplyAll(body, rules[i..]) == ApplyAll(old(body), rules)
      {
        assert rules[i..][0] == rules[i] && rules[i..][1..] == rules[i + 1..];
        ApplyBodyRule(rules[i]);
      }
    }
  }

  lemma {:induction false} ReadPrefix(v: Json, path: Path, i: nat)
    requires i <= |path| && Read(v, path).Some?
    ensures Read(v, path[..i]).Some?
  {
    if i > 0 {
      assert path[..i][1..] == path[1..][..i - 1];
      ReadPrefix(v.fields[path[0]], path[1..], i - 1);
    }
  }

  /** A rule edits the object its path leads to, and does nothing if the path
      leads nowhere or to something else. */
  lemma {:induction false} ApplyIsWrite(v: Json, path: Path, rewrite: Option<Json>)
    requires path != []
    ensures
      var n := |path| - 1;
      Apply(v, path, rewrite) ==
      match Read(v, path[..n])
      case None => v
      case Some(x) => if x.Obj? then Write(v, path[..n], Edit(x, path[n], rewrite)) else v
  {
    var n := |path| - 1;
    if n > 0 {
      assert path[..n][1..] == path[1..][..n - 1];
      if v.Obj? && path[0] in v.fields {
        ApplyIsWrite(v.fields[path[0]], path[1..], rewrite);
        assert v.fields[path[0] := v.fields[path[0]]] == v.fields;
      }
    }
  }

  // Frame and effect.

  ghost predicate Incomparable(p: Path, q: Path) {
    !(p <= q) && !(q <= p)
  }

  lemma IncomparableTails(p: Path, q: Path)
    requires Incomparable(p, q) && p[0] == q[0]
    ensures p[1..] != [] && q[1..] != [] && Incomparable(p[1..], q[1..])
  {
    assert p == [p[0]] + p[1..] && q == [q[0]] + q[1..];
  }

  /** A rule changes only its own field: every path incomparable with the rule's
      reads as before. */
  lemma {:induction false} RuleFrame(v: Json, p: Path, rewrite: Option<Json>, q: Path)
    requires Incomparable(p, q)
    ensures Read(Apply(v, p, rewrite), q) == Read(v, q)
    decreases |p|
  {
    if v.Obj? && p[0] == q[0] {
      IncomparableTails(p, q);
      if p[0] in v.fields {
        RuleFrame(v.fields[p[0]], p[1..], rewrite, q[1..]);
      }
    }
  }

  /** The path leads to a place that can hold a field. */
  ghost predicate Reaches(v: Json, p: Path)
    requires p != []
  {
    Read(v, p[..|p| - 1]).Some? && Read(v, p[..|p| - 1]).value.Obj?
  }

  /** Under its own path a rule puts its value, or nothing; a rule whose path
      reaches no object leaves the document alone. */
  lemma {:induction false} RuleEffect(v: Json, p: Path, rewrite: Option<Json>, rest: Path)
    requires p != []
    ensures !Reaches(v, p) ==> Apply(v, p, rewrite) == v
    ensures Reaches(v, p) ==>
      Read(Apply(v, p, rewrite), p + rest) == if rewrite.Some? then Read(rewrite.value, rest) else None
  {
    var n := |p| - 1;
    assert (p + rest)[1..] == p[1..] + rest;
    if n == 0 {
      assert p[..0] == [] && p[1..] + rest == rest;
    } else if v.Obj? && p[0] in v.fields {
      assert p[..n][1..] == p[1..][..n - 1];
      RuleEffect(v.fields[p[0]], p[1..], rewrite, rest);
      assert v.fields[p[0] := v.fields[p[0]]] == v.fields;
    }
  }

  // Rules by the text of their field.

  /** A field's text is its segments with a dot between any two. */
  lemma FieldNamesPath(segments: Path, rewriteTo: Option<Json>)
    requires segments != [] && forall i :: 0 <= i < |segments| ==> '.' !in segments[i]
    ensures PathOf(Rule(Join(segments, "."), rewriteTo)) == segments
  {
    assert forall i :: 0 <= i < |segments| ==> Plain(segments[i], '.');
    SplitJoin(segments, '.');
  }

  /** Frame and effect of a rule, in terms of its dotted field. */
  lemma DottedRule(v: Json, segments: Path, rewriteTo: Option<Json>, q: Path, rest: Path)
    requires segments != [] && forall i :: 0 <= i < |segments| ==> '.' !in segments[i]
    ensures
      var after := ApplyRule(v, Rule(Join(segments, "."), rewriteTo));
      (Incomparable(segments, q) ==> Read(after, q) == Read(v, q)) &&
      (!Reaches(v, segments) ==> after == v) &&
      (Reaches(v, segments) ==>
        Read(after, segments + rest) == if rewriteTo.Some? then Read(rewriteTo.value, rest) else None)
  {
    FieldNamesPath(segments, rewriteTo);
    if Incomparable(segments, q) {
      RuleFrame(v, segments, rewriteTo, q);
    }
    RuleEffect(v, segments, rewriteTo, rest);
  }

  // Order of rules.

  lemma {:induction false} IncomparableCommute(v: Json, p: Path, r: Option<Json>, q: Path, s: Option<Json>)
    requires Incomparable(p, q)
    ensures Apply(Apply(v, p, r), q, s) == Apply(Apply(v, q, s), p, r)
    decreases |p|
  {
    if v.Obj? {
      if p[0] == q[0] {
        IncomparableTails(p, q);
        if p[0] in v.fields {
          IncomparableCommute(v.fields[p[0]], p[1..], r, q[1..], s);
          var pq := Apply(Apply(v.fields[p[0]], p[1..], r), q[1..], s);
          assert Apply(Apply(v, p, r), q, s) == Obj(v.fields[p[0] := pq]);
          assert Apply(Apply(v, q, s), p, r) == Obj(v.fields[p[0] := pq]);
        }
      } else {
        DifferentKeysCommute(v, p, r, q, s);
      }
    }
  }

  /** What a rule makes of one field of an object. */
  function FieldAfter(v: Json, p: Path, r: Option<Json>): Option<Json>
    requires p != [] && v.Obj?
  {
    if |p| == 1 then r
    else if p[0] in v.fields then Some(Apply(v.fields[p[0]], p[1..], r))
    else None
  }

  function SetField(fields: map<string, Json>, key: string, x: Option<Json>): map<string, Json> {
    if x.Some? then fields[key := x.value] else fields - {key}
  }

  lemma ApplyIsSetField(v: Json, p: Path, r: Option<Json>)
    requires p != [] && v.Obj?
    ensures Apply(v, p, r) == Obj(SetField(v.fields, p[0], FieldAfter(v, p, r)))
  {
    if |p| > 1 && p[0] !in v.fields {
      assert v.fields - {p[0]} == v.fields;
    }
  }

  lemma DifferentKeysCommute(v: Json, p: Path, r: Option<Json>, q: Path, s: Option<Json>)
    requires p != [] && q != [] && p[0] != q[0] && v.Obj?
    ensures Apply(Apply(v, p, r), q, s) == Apply(Apply(v, q, s), p, r)
  {
    ApplyIsSetField(v, p, r);
    ApplyIsSetField(v, q, s);
    var x, y := FieldAfter(v, p, r), FieldAfter(v, q, s);
    ApplyIsSetField(Apply(v, p, r), q, s);
    ApplyIsSetField(Apply(v, q, s), p, r);
    assert SetField(SetField(v.fields, p[0], x), q[0], y) == SetField(SetField(v.fields, q[0], y), p[0], x);
  }

  /** A rule at or above another's field makes the other's earlier work void. */
  lemma {:induction false} OverwritesBelow(v: Json, p: Path, r: Option<Json>, rest: Path, s: Option<Json>)
    requires p != []
    ensures Apply(Apply(v, p + rest, s), p, r) == Apply(v, p, r)
    decreases |p|
  {
    var q := p + rest;
    if v.Obj? {
      assert q[0] == p[0];
      if |p| == 1 {
        ApplyIsSetField(v, q, s);
        var y := FieldAfter(v, q, s);
        assert SetField(SetField(v.fields, p[0], y), p[0], r) == SetField(v.fields, p[0], r);
      } else if p[0] in v.fields {
        assert q[1..] == p[1..] + rest;
        OverwritesBelow(v.fields[p[0]], p[1..], r, rest, s);
        assert Apply(Apply(v, q, s), p, r) == Apply(v, p, r);
      }
    }
  }

  /** A rule below a field just set edits the value it was set to. */
  lemma {:induction false} EditsBelow(v: Json, p: Path, r: Option<Json>, rest: Path, s: Option<Json>)
    requires p != [] && rest != []
    ensures Apply(Apply(v, p, r), p + rest, s) ==
      Apply(v, p, if r.Some? then Some(Apply(r.value, rest, s)) else None)
    decreases |p|
  {
    var q := p + rest;
    if v.Obj? {
      assert q[0] == p[0] && q[1..] == p[1..] + rest;
      if |p| == 1 {
        assert q[1..] == rest;
        if r.Some? {
          assert v.fields[p[0] := r.value][p[0] := Apply(r.value, rest, s)] == v.fields[p[0] := Apply(r.value, rest, s)];
        }
      } else if p[0] in v.fields {
        EditsBelow(v.fields[p[0]], p[1..], r, rest, s);
        assert Apply(Apply(v, p, r), q, s) == Apply(v, p, if r.Some? then Some(Apply(r.value, rest, s)) else None);
      }
    }
  }

  /** Applying a rule twice is applying it once. */
  lemma RuleIdempotent(v: Json, rule: Rule)
    ensures ApplyRule(ApplyRule(v, rule), rule) == ApplyRule(v, rule)
  {
    var p := PathOf(rule);
    assert p + [] == p;
    OverwritesBelow(v, p, rule.rewriteTo, [], rule.rewriteTo);
  }

  ghost predicate Commute(p: Path, r: Option<Json>, q: Path, s: Option<Json>)
    requires p != [] && q != []
  {
    forall v :: Apply(Apply(v, p, r), q, s) == Apply(Apply(v, q, s), p, r)
  }

  /** The smallest document in which a path reaches an object. */
  function Skeleton(p: Path): Json
    requires p != []
  {
    if |p| == 1 then Obj(map[]) else Obj(map[p[0] := Skeleton(p[1..])])
  }

  lemma {:induction false} SkeletonReaches(p: Path)
    requires p != []
    ensures Reaches(Skeleton(p), p)
  {
    var n := |p| - 1;
    if n > 0 {
      SkeletonReaches(p[1..]);
      assert p[..n][1..] == p[1..][..n - 1];
    }
  }

  /** One rule above another: they commute on every document exactly when the
      upper one leaves nothing for the lower one to change. */
  lemma CommuteBelow(p: Path, r: Option<Json>, rest: Path, s: Option<Json>)
    requires p != [] && rest != []
    ensures Commute(p, r, p + rest, s) <==> r.None? || Apply(r.value, rest, s) == r.value
  {
    var q := p + rest;
    forall v
      ensures Apply(Apply(v, q, s), p, r) == Apply(v, p, r)
      ensures Apply(Apply(v, p, r), q, s) == Apply(v, p, if r.Some? then Some(Apply(r.value, rest, s)) else None)
    {
      OverwritesBelow(v, p, r, rest, s);
      EditsBelow(v, p, r, rest, s);
    }
    if r.Some? && Commute(p, r, q, s) {
      var v := Skeleton(p);
      SkeletonReaches(p);
      assert p + [] == p;
      RuleEffect(v, p, r, []);
      RuleEffect(v, p, Some(Apply(r.value, rest, s)), []);
      assert Apply(Apply(v, p, r), q, s) == Apply(Apply(v, q, s), p, r);
    }
  }

  /** Two rules for the same field commute exactly when they are the same. */
  lemma CommuteSame(p: Path, r: Option<Json>, s: Option<Json>)
    requires p != []
    ensures Commute(p, r, p, s) <==> r == s
  {
    assert p + [] == p;
    forall v
      ensures Apply(Apply(v, p, s), p, r) == Apply(v, p, r)
      ensures Apply(Apply(v, p, r), p, s) == Apply(v, p, s)
    {
      OverwritesBelow(v, p, r, [], s);
      OverwritesBelow(v, p, s, [], r);
    }
    if Commute(p, r, p, s) {
      var v := Skeleton(p);
      SkeletonReaches(p);
      RuleEffect(v, p, r, []);
      RuleEffect(v, p, s, []);
      assert Apply(Apply(v, p, r), p, s) == Apply(Apply(v, p, s), p, r);
    }
  }

  /** Exactly when two rules can be swapped on every document. */
  lemma CommuteExactly(p: Path, r: Option<Json>, q: Path, s: Option<Json>)
    requires p != [] && q != []
    ensures Commute(p, r, q, s) <==>
      || Incomparable(p, q)
      || (p == q && r == s)
      || (p < q && (r.None? || Apply(r.value, q[|p|..], s) == r.value))
      || (q < p && (s.None? || Apply(s.value, p[|q|..], r) == s.value))
  {
    if Incomparable(p, q) {
      forall v
        ensures Apply(Apply(v, p, r), q, s) == Apply(Apply(v, q, s), p, r)
      {
        IncomparableCommute(v, p, r, q, s);
      }
    } else if p == q {
      CommuteSame(p, r, s);
    } else if p < q {
      assert p + q[|p|..] == q;
      CommuteBelow(p, r, q[|p|..], s);
    } else {
      assert q + p[|q|..] == p;
      CommuteBelow(q, s, p[|q|..], r);
      assert Commute(p, r, q, s) <==> Commute(q, s, p, r) by {
        CommuteSymmetric(p, r, q, s);
        CommuteSymmetric(q, s, p, r);
      }
    }
  }

  lemma CommuteSymmetric(p: Path, r: Option<Json>, q: Path, s: Option<Json>)
    requires p != [] && q != []
    ensures Commute(p, r, q, s) ==> Commute(q, s, p, r)
  {
    if Commute(p, r, q, s) {
      forall v
        ensures Apply(Apply(v, q, s), p, r) == Apply(Apply(v, p, r), q, s)
      {
        assert Apply(Apply(v, p, r), q, s) == Apply(Apply(v, q, s), p, r);
      }
    }
  }

  ghost predicate PairwiseIncomparable(rules: seq<Rule>) {
    forall i, j :: 0 <= i < j < |rules| ==> Incomparable(PathOf(rules[i]), PathOf(rules[j]))
  }

  lemma {:induction false} MoveToFront(v: Json, before: seq<Rule>, r: Rule, after: seq<Rule>)
    requires forall i :: 0 <= i < |before| ==> Incomparable(PathOf(before[i]), PathOf(r))
    ensures ApplyAll(v, before + [r] + after) == ApplyAll(v, [r] + (before + after))
    decreases |before|
  {
    if before == [] {
      assert before + [r] + after == [r] + (before + after);
    } else {
      var b := before[0];
      assert (before + [r] + after)[1..] == before[1..] + [r] + after;
      MoveToFront(ApplyRule(v, b), before[1..], r, after);
      IncomparableCommute(v, PathOf(b), b.rewriteTo, PathOf(r), r.rewriteTo);
      assert ([r] + (before[1..] + after))[1..] == before[1..] + after;
      assert ([r] + (before + after))[1..] == before + after;
      assert (before + after)[1..] == before[1..] + after;
    }
  }

  lemma FindFront(r: Rule, rest: seq<Rule>, reordered: seq<Rule>) returns (before: seq<Rule>, after: seq<Rule>)
    requires multiset([r] + rest) == multiset(reordered)
    ensures reordered == before + [r] + after && multiset(rest) == multiset(before + after)
  {
    assert r in multiset([r] + rest);
    var i :| 0 <= i < |reordered| && reordered[i] == r;
    before, after := reordered[..i], reordered[i + 1..];
    assert reordered == before + [r] + after;
    assert multiset(reordered) == multiset(before + after) + multiset{r};
    assert multiset([r] + rest) == multiset(rest) + multiset{r};
    assert multiset(rest) == multiset([r] + rest) - multiset{r};
    assert multiset(before + after) == multiset(reordered) - multiset{r};
  }

  lemma FrontIncomparable(r: Rule, rest: seq<Rule>, before: seq<Rule>, after: seq<Rule>)
    requires PairwiseIncomparable([r] + rest) && multiset(rest) == multiset(before + after)
    ensures forall k :: 0 <= k < |before| ==> Incomparable(PathOf(before[k]), PathOf(r))
    ensures PairwiseIncomparable(rest)
  {
    var rules := [r] + rest;
    forall k | 0 <= k < |before|
      ensures Incomparable(PathOf(before[k]), PathOf(r))
    {
      assert before[k] == (before + after)[k];
      assert before[k] in multiset(rest);
      var m :| 0 <= m < |rest| && rest[m] == before[k];
      assert Incomparable(PathOf(rules[0]), PathOf(rules[m + 1]));
    }
    forall i, j | 0 <= i < j < |rest|
      ensures Incomparable(PathOf(rest[i]), PathOf(rest[j]))
    {
      assert rest[i] == rules[i + 1] && rest[j] == rules[j + 1];
    }
  }

  /** Any reordering of rules whose paths are pairwise incomparable gives the
      same document. */
  lemma {:induction false} OrderDoesNotMatter(v: Json, rules: seq<Rule>, reordered: seq<Rule>)
    requires PairwiseIncomparable(rules) && multiset(rules) == multiset(reordered)
    ensures ApplyAll(v, rules) == ApplyAll(v, reordered)
    decreases |rules|
  {
    if rules == [] {
      assert |multiset(reordered)| == 0;
    } else {
      var r, rest := rules[0], rules[1..];
      assert rules == [r] + rest;
      var before, after := FindFront(r, rest, reordered);
      FrontIncomparable(r, rest, before, after);
      MoveToFront(v, before, r, after);
      assert ([r] + (before + after))[1..] == before + after;
      OrderDoesNotMatter(ApplyRule(v, r), rest, before + after);
    }
  }

  // Order of effects.

  lemma {:induction false} ApplyAllThen(v: Json, rules: seq<Rule>, last: Rule)
    ensures ApplyAll(v, rules + [last]) == ApplyRule(ApplyAll(v, rules), last)
    decreases |rules|
  {
    if rules == [] {
      assert rules + [last] == [last] && [last][1..] == [];
    } else {
      assert (rules + [last])[1..] == rules[1..] + [last];
      ApplyAllThen(ApplyRule(v, rules[0]), rules[1..], last);
    }
  }

  /** The last rule has the last word, on what the rules before it left. */
  lemma LastRuleWins(v: Json, rules: seq<Rule>, segments: Path, rewriteTo: Option<Json>, rest: Path)
    requires segments != [] && forall i :: 0 <= i < |segments| ==> '.' !in segments[i]
    ensures
      var before, after := ApplyAll(v, rules), ApplyAll(v, rules + [Rule(Join(segments, "."), rewriteTo)]);
      (!Reaches(before, segments) ==> after == before) &&
      (Reaches(before, segments) ==>
        Read(after, segments + rest) == if rewriteTo.Some? then Read(rewriteTo.value, rest) else None)
  {
    ApplyAllThen(v, rules, Rule(Join(segments, "."), rewriteTo));
    DottedRule(ApplyAll(v, rules), segments, rewriteTo, [], rest);
  }
}
