/** tools/ebert/handlers/mux.go: routes ordered by specificity. Specificities are exact
    numbers here; regular expressions are abstract. */
module Mux {
  import Text

  function Half(n: nat): real {
    if n == 0 then 1.0 else Half(n - 1) * 0.5
  }

  predicate IsParameter(part: string) {
    part != "" && part[0] == ':'
  }

  /** Which segments of a pattern are parameters. */
  function Uses(parts: seq<string>): (u: seq<bool>)
    ensures |u| == |parts| && forall i :: 0 <= i < |u| ==> u[i] == IsParameter(parts[i])
  {
    seq(|parts|, i requires 0 <= i < |parts| => IsParameter(parts[i]))
  }

  /** What the parameters take off: half for the first segment, a quarter for the second... */
  function Penalty(uses: seq<bool>): (p: real)
    ensures 0.0 <= p < 1.0
  {
    if uses == [] then 0.0 else (if uses[0] then 0.5 else 0.0) + Penalty(uses[1..]) * 0.5
  }

  function Specificity(pattern: string): real {
    var parts := Text.Split(pattern, '/');
    |parts| as real - Penalty(Uses(parts))
  }

  lemma {:induction false} PenaltySnoc(uses: seq<bool>, last: bool)
    ensures Penalty(uses + [last]) == Penalty(uses) + if last then Half(|uses| + 1) else 0.0
  {
    if uses == [] {
      assert [last][1..] == [] && Half(1) == Half(0) * 0.5;
    } else {
      PenaltySnoc(uses[1..], last);
      assert (uses + [last])[1..] == uses[1..] + [last];
    }
  }

  lemma NoPenalty()
    ensures Penalty([]) == 0.0
  {
  }

  /** More segments, or as many and a literal where the two first differ. */
  ghost predicate MoreSpecific(a: seq<bool>, b: seq<bool>) {
    |a| > |b| || (|a| == |b| && exists i :: 0 <= i < |a| && a[..i] == b[..i] && !a[i] && b[i])
  }

  /** Penalties of patterns of one length compare by the first difference. */
  lemma {:induction false} PenaltyCompares(a: seq<bool>, b: seq<bool>)
    requires |a| == |b|
    ensures Penalty(a) < Penalty(b) <==> exists i :: 0 <= i < |a| && a[..i] == b[..i] && !a[i] && b[i]
    ensures Penalty(a) == Penalty(b) <==> a == b
  {
    if a != [] {
      PenaltyCompares(a[1..], b[1..]);
      assert a == [a[0]] + a[1..] && b == [b[0]] + b[1..];
      if a[0] == b[0] {
        SharedStart(a, b);
      } else if !a[0] {
        assert a[..0] == b[..0];
      } else {
        forall i | 0 < i < |a|
          ensures a[..i] != b[..i]
        {
          assert a[..i][0] == a[0] && b[..i][0] == b[0];
        }
      }
    }
  }

  lemma SharedStart(a: seq<bool>, b: seq<bool>)
    requires |a| == |b| > 0 && a[0] == b[0]
    ensures (exists i :: 0 <= i < |a| && a[..i] == b[..i] && !a[i] && b[i]) <==>
      (exists i :: 0 <= i < |a| - 1 && a[1..][..i] == b[1..][..i] && !a[1..][i] && b[1..][i])
  {
    if i :| 0 <= i < |a| && a[..i] == b[..i] && !a[i] && b[i] {
      assert i > 0;
      assert a[1..][..i - 1] == a[..i][1..] && b[1..][..i - 1] == b[..i][1..];
      assert !a[1..][i - 1] && b[1..][i - 1];
    }
    if i :| 0 <= i < |a| - 1 && a[1..][..i] == b[1..][..i] && !a[1..][i] && b[1..][i] {
      assert a[..i + 1] == [a[0]] + a[1..][..i] && b[..i + 1] == [b[0]] + b[1..][..i];
      assert !a[i + 1] && b[i + 1];
    }
  }

  /** Specificities order patterns exactly as documented: more segments first, then the
      earlier literal; equal ones are patterns that use parameters in the same places. */
  lemma SpecificityCompares(p: string, q: string)
    ensures var a, b := Uses(Text.Split(p, '/')), Uses(Text.Split(q, '/'));
      && (Specificity(p) > Specificity(q) <==> MoreSpecific(a, b))
      && (Specificity(p) == Specificity(q) <==> a == b)
  {
    var a, b := Uses(Text.Split(p, '/')), Uses(Text.Split(q, '/'));
    if |a| == |b| {
      PenaltyCompares(a, b);
    } else if |a| > |b| {
      assert |a| as real >= |b| as real + 1.0;
    } else {
      assert |b| as real >= |a| as real + 1.0;
    }
  }

  /** The regular expression a pattern is turned into. */
  function Matchers(parts: seq<string>): (m: seq<string>)
    ensures |m| == |parts|
  {
    seq(|parts|, i requires 0 <= i < |parts| =>
      if !IsParameter(parts[i]) then parts[i] else if i == |parts| - 1 then ".*" else "[^/]+")
  }

  /** A literal segment stands for itself, a parameter for one segment, and a parameter at
      the end for the rest of the path. */
  lemma MatcherOfSegment(before: seq<string>, part: string, after: seq<string>)
    requires forall p | p in before + [part] + after :: '/' !in p
    ensures var matchers := Matchers(Text.Split(Text.Join(before + [part] + after, '/'), '/'));
      && |matchers| == |before| + 1 + |after|
      && (!(":" <= part) ==> matchers[|before|] == part)
      && (":" <= part && after != [] ==> matchers[|before|] == "[^/]+")
      && (":" <= part && after == [] ==> matchers[|before|] == ".*")
  {
    Text.SplitJoin(before + [part] + after, '/');
  }

  /** handler stands for the function to call; order counts the registrations. */
  datatype Route = Route(matcher: string, specificity: real, handler: int, order: nat)

  /** Most specific first; among equals, in the order they were registered. */
  ghost predicate Ordered(routes: seq<Route>) {
    forall i, j :: 0 <= i < j < |routes| ==>
      routes[i].specificity > routes[j].specificity
      || (routes[i].specificity == routes[j].specificity && routes[i].order < routes[j].order)
  }

  datatype Served = Handled(handler: int) | RouteNotFound

  class Mux {
    var routes: seq<Route>
    var registered: nat

    ghost predicate Valid()
      reads this
    {
      Ordered(routes) && forall r | r in routes :: r.order < registered
    }

    constructor ()
      ensures Valid() && routes == []
    {
      routes, registered := [], 0;
    }

    /** sort.Search for the first route that is less specific. */
    method Search(specificity: real) returns (idx: nat)
      requires Ordered(routes)
      ensures idx <= |routes|
      ensures forall i :: 0 <= i < idx ==> routes[i].specificity >= specificity
      ensures forall i :: idx <= i < |routes| ==> routes[i].specificity < specificity
    {
      var i, j := 0, |routes|;
      while i < j
        invariant 0 <= i <= j <= |routes|
        invariant forall h :: 0 <= h < i ==> routes[h].specificity >= specificity
        invariant forall h :: j <= h < |routes| ==> routes[h].specificity < specificity
      {
        var h := (i + j) / 2;
        if !(routes[h].specificity < specificity) {
          i := h + 1;
        } else {
          j := h;
        }
      }
      idx := i;
    }

    /** The first half of Handle: the pattern's specificity and its regular expression. */
    static method Measure(pattern: string) returns (specificity: real, joined: string)
      ensures specificity == Specificity(pattern)
      ensures joined == Text.Join(Matchers(Text.Split(pattern, '/')), '/')
    {
      var matchers: seq<string> := [];
      var parts := Text.Split(pattern, '/');
      specificity := |parts| as real;
      ghost var uses, all := Uses(parts), Matchers(parts);
      hide Penalty, Half, Text.Split, Text.Join;
      NoPenalty();
      for i := 0 to |parts|
        invariant specificity == |parts| as real - Penalty(uses[..i])
        invariant matchers == all[..i]
      {
        var part := parts[i];
        PenaltySnoc(uses[..i], uses[i]);
        assert uses[..i + 1] == uses[..i] + [uses[i]];
        if part != "" && part[0] == ':' {
          var penalty := Half(i + 1);
          specificity := specificity - penalty;
          if i == |parts| - 1 {
            matchers := matchers + [".*"];
          } else {
            matchers := matchers + ["[^/]+"];
          }
        } else {
          matchers := matchers + [part];
        }
      }
      assert uses[..|parts|] == uses && all[..|parts|] == all;
      joined := Text.Join(matchers, '/');
    }

    /** Adds a route, unless its handler or its regular expression is no good. The order of
        the routes is kept, and the new one comes behind all that are as specific. */
    method Handle(pattern: string, handler: int, wraps: bool, compiles: string -> bool) returns (ok: bool)
      requires Valid()
      modifies this
      ensures Valid()
      ensures ok <==> wraps && compiles(Text.Join(Matchers(Text.Split(pattern, '/')), '/'))
      ensures !ok ==> unchanged(this)
      ensures ok ==> registered == old(registered) + 1 && exists idx ::
        && 0 <= idx <= |old(routes)|
        && routes == old(routes[..idx])
                     + [Route(Text.Join(Matchers(Text.Split(pattern, '/')), '/'), Specificity(pattern), handler,
                       old(registered))]
                     + old(routes[idx..])
    {
      if !wraps {
        return false;
      }
      var specificity, joined := Measure(pattern);
      if !compiles(joined) {
        return false;
      }
      var idx := Search(specificity);
      InsertOrdered(routes, idx, Route(joined, specificity, handler, registered));
      routes := routes[..idx] + [Route(joined, specificity, handler, registered)] + routes[idx..];
      registered := registered + 1;
      return true;
    }

    ghost predicate Best(k: int, path: string, matches: (string, string) -> bool)
      requires 0 <= k < |routes|
      reads this
    {
      && matches(routes[k].matcher, path)
      && forall i :: 0 <= i < |routes| && i != k && matches(routes[i].matcher, path) ==>
           routes[i].specificity < routes[k].specificity
           || (routes[i].specificity == routes[k].specificity && routes[k].order < routes[i].order)
    }

    /** The first route that matches. No matching route is more specific, and none as specific
        was registered earlier. */
    method Serve(path: string, matches: (string, string) -> bool) returns (r: Served)
      requires Valid()
      ensures r.RouteNotFound? ==> forall i :: 0 <= i < |routes| ==> !matches(routes[i].matcher, path)
      ensures r.Handled? ==> exists k :: 0 <= k < |routes| && r.handler == routes[k].handler && Best(k, path, matches)
    {
      for i := 0 to |routes|
        invariant forall h :: 0 <= h < i ==> !matches(routes[h].matcher, path)
      {
        if matches(routes[i].matcher, path) {
          assert Best(i, path, matches);
          return Handled(routes[i].handler);
        }
      }
      return RouteNotFound;
    }
  }

  lemma InsertOrdered(routes: seq<Route>, idx: nat, route: Route)
    requires Ordered(routes) && idx <= |routes| && forall r | r in routes :: r.order < route.order
    requires forall i :: 0 <= i < idx ==> routes[i].specificity >= route.specificity
    requires forall i :: idx <= i < |routes| ==> routes[i].specificity < route.specificity
    ensures Ordered(routes[..idx] + [route] + routes[idx..])
  {
  }
}
