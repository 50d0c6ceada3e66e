/** The extractor's stack of open package scopes (`PackageContext` and
    `_update_stack` in parser.py). Each entry counts the braces its package
    has opened and not yet closed; a line's net closing braces pop scopes,
    carrying any excess into the enclosing scope. */
module Scopes {
  import opened Text

  datatype PackageContext = PackageContext(name: string, braceBalance: int)

  /** Net braces a line opens: `line.count("{") - line.count("}")`. */
  function BraceDelta(line: string): int {
    Count(line, '{') - Count(line, '}')
  }

  /** The scope a new element belongs to: the innermost open package, or none. */
  function CurrentPackage(stack: seq<PackageContext>): string {
    if stack == [] then "" else stack[|stack| - 1].name
  }

  /** Every open scope still holds at least one unclosed brace. */
  predicate AllOpen(stack: seq<PackageContext>) {
    forall i :: 0 <= i < |stack| ==> stack[i].braceBalance > 0
  }

  /** The net number of unclosed braces over all open scopes. */
  function Depth(stack: seq<PackageContext>): int {
    if stack == [] then 0 else Depth(stack[..|stack| - 1]) + stack[|stack| - 1].braceBalance
  }

  /** Reference definition of the stack after `delta` is added to its top:
      a top that is no longer positive is popped, and a negative excess is
      carried into the entry below, which is then checked in turn. */
  function Rebalance(stack: seq<PackageContext>, delta: int): seq<PackageContext>
    decreases |stack|
  {
    if stack == [] then []
    else
      var top := stack[|stack| - 1];
      var b := top.braceBalance + delta;
      if b > 0 then stack[..|stack| - 1] + [top.(braceBalance := b)]
      else Rebalance(stack[..|stack| - 1], if b < 0 then b else 0)
  }

  /** Rebalancing only pops and adjusts the top: the result is a prefix of
      the stack's scopes, all but its top entry unchanged, its top still open. */
  lemma {:induction false} RebalanceShape(stack: seq<PackageContext>, delta: int)
    ensures var r := Rebalance(stack, delta);
      |r| <= |stack| &&
      (forall i :: 0 <= i < |r| ==> r[i].name == stack[i].name) &&
      (forall i :: 0 <= i < |r| - 1 ==> r[i] == stack[i]) &&
      (r != [] ==> r[|r| - 1].braceBalance > 0)
    decreases |stack|
  {
    if stack != [] {
      var top := stack[|stack| - 1];
      var b := top.braceBalance + delta;
      if b <= 0 {
        RebalanceShape(stack[..|stack| - 1], if b < 0 then b else 0);
      }
    }
  }

  /** Adding `delta` to the top entry first and rebalancing with nothing
      left to add gives the same stack. */
  lemma RebalanceShift(stack: seq<PackageContext>, delta: int)
    requires stack != []
    ensures Rebalance(stack, delta) ==
              Rebalance(stack[..|stack| - 1] + [stack[|stack| - 1].(braceBalance := stack[|stack| - 1].braceBalance + delta)], 0)
  {
    var s := stack[..|stack| - 1] + [stack[|stack| - 1].(braceBalance := stack[|stack| - 1].braceBalance + delta)];
    assert s[..|s| - 1] == stack[..|stack| - 1];
  }

  /** `_update_stack(stack, line)`, on the list as a value. */
  method UpdateStack(stack: seq<PackageContext>, line: string) returns (result: seq<PackageContext>)
    ensures result == Rebalance(stack, BraceDelta(line))
    ensures stack == [] ==> result == []
    ensures |result| <= |stack|
    ensures result != [] ==> result[|result| - 1].braceBalance > 0
  {
    if stack == [] {
      return stack;
    }
    var delta := Count(line, '{') - Count(line, '}');
    var s := stack[..|stack| - 1] + [stack[|stack| - 1].(braceBalance := stack[|stack| - 1].braceBalance + delta)];
    RebalanceShift(stack, delta);
    while s != [] && s[|s| - 1].braceBalance <= 0
      invariant Rebalance(s, 0) == Rebalance(stack, delta)
      decreases |s|
    {
      var leftover := s[|s| - 1].braceBalance;
      s := s[..|s| - 1];
      if leftover < 0 && s != [] {
        RebalanceShift(s, leftover);
        var below := s[|s| - 1];
        s := s[..|s| - 1] + [below.(braceBalance := below.braceBalance + leftover)];
      }
    }
    result := s;
    RebalanceShape(stack, delta);
  }

  lemma {:induction false} DepthOfAllOpen(stack: seq<PackageContext>)
    requires AllOpen(stack)
    ensures Depth(stack) >= |stack|
  {
    if stack != [] {
      DepthOfAllOpen(stack[..|stack| - 1]);
    }
  }

  /** The stack after a line stays all open, and its depth is the old depth
      plus the line's net braces, clamped at zero once the outermost scope
      closes: braces are never lost while a scope remains open. */
  lemma {:induction false} RebalanceDepth(stack: seq<PackageContext>, delta: int)
    requires stack != [] ==> AllOpen(stack[..|stack| - 1])
    ensures AllOpen(Rebalance(stack, delta))
    ensures Depth(Rebalance(stack, delta)) ==
              if stack == [] || Depth(stack) + delta <= 0 then 0 else Depth(stack) + delta
    ensures stack != [] && Depth(stack) + delta <= 0 ==> Rebalance(stack, delta) == []
    decreases |stack|
  {
    if stack != [] {
      var init, top := stack[..|stack| - 1], stack[|stack| - 1];
      var b := top.braceBalance + delta;
      DepthOfAllOpen(init);
      if b > 0 {
        var r := init + [top.(braceBalance := b)];
        assert r[..|r| - 1] == init;
      } else {
        assert init != [] ==> init[..|init| - 1] == stack[..|stack| - 2];
        assert init != [] ==> AllOpen(init[..|init| - 1]);
        RebalanceDepth(init, if b < 0 then b else 0);
      }
    }
  }

  /** A line that opens nothing leaves an all-open stack as it is. */
  lemma RebalanceZero(stack: seq<PackageContext>)
    requires AllOpen(stack)
    ensures Rebalance(stack, 0) == stack
  {
    if stack != [] {
      assert stack[..|stack| - 1] + [stack[|stack| - 1]] == stack;
    }
  }

  /** Two nested scopes holding one brace each both close on a line with two
      net closing braces, uncovering the enclosing scopes unchanged. */
  lemma ClosingTwoNestedScopes(outer: seq<PackageContext>, p: string, q: string)
    requires AllOpen(outer)
    ensures Rebalance(outer + [PackageContext(p, 1), PackageContext(q, 1)], -2) == outer
  {
    var s := outer + [PackageContext(p, 1), PackageContext(q, 1)];
    assert s[..|s| - 1] == outer + [PackageContext(p, 1)];
    assert (outer + [PackageContext(p, 1)])[..|outer|] == outer;
    RebalanceZero(outer);
  }

  /** A scope pushed for a package declaration disappears on the same line
      unless that line opens a brace. */
  lemma NewScopeNeedsABrace(stack: seq<PackageContext>, name: string, delta: int)
    requires AllOpen(stack)
    ensures delta <= 0 ==> |Rebalance(stack + [PackageContext(name, 0)], delta)| <= |stack|
    ensures delta > 0 ==> Rebalance(stack + [PackageContext(name, 0)], delta) == stack + [PackageContext(name, delta)]
  {
    var s := stack + [PackageContext(name, 0)];
    assert s[..|s| - 1] == stack;
    if delta <= 0 {
      RebalanceShape(stack, delta);
    }
  }
}
