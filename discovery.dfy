/**
 * Module discovery (src/renderer/npm.ts, `findModules` and
 * `findModulesInEditors`): the leftmost `require(...)` of each text gives at
 * most one candidate, which is kept unless it is `electron`, a built-in
 * module or a relative path.
 */
module Discovery {
  import opened Wrappers
  import opened RequireRegex

  /** The host runtime's own module, never installed. */
  const Electron: string := "electron"

  /** The editor contents the discovery reads: the main and renderer texts. */
  datatype EditorValues = EditorValues(main: string, renderer: string)

  /** `candidate.startsWith('.')`. */
  predicate StartsWithDot(candidate: string) {
    |candidate| > 0 && candidate[0] == '.'
  }

  /** The three early returns of the `forEach` callback, negated. */
  predicate Keep(candidate: string, builtins: set<string>) {
    && candidate != Electron
    && candidate !in builtins
    && !StartsWithDot(candidate)
  }

  /**
   * The candidates that survive the filter, as `result.push` collects them.
   * The source always passes exactly one candidate (`matched.slice(1)`).
   */
  function Kept(candidates: seq<string>, builtins: set<string>): (r: seq<string>)
    ensures |r| <= |candidates|
    ensures forall n :: n in r <==> n in candidates && Keep(n, builtins)
    ensures |candidates| == 1 ==> r == if Keep(candidates[0], builtins) then [candidates[0]] else []
  {
    if candidates == [] then
      []
    else
      var last := candidates[|candidates| - 1];
      Kept(candidates[..|candidates| - 1], builtins) + (if Keep(last, builtins) then [last] else [])
  }

  /** What `findModules(input)` resolves to, with the built-in list as a parameter. */
  function Discover(input: string, builtins: set<string>): (r: seq<string>)
    ensures |r| <= 1
    ensures forall n :: n in r ==> Keep(n, builtins) && IsName(n)
    ensures r != [] ==> Exec(input).Some? && r == [Exec(input).value.capture]
  {
    match Exec(input)
    case None => []
    case Some(m) =>
      var matched := m.Array();
      if |matched| > 0 then Kept(matched[1..], builtins) else []
  }

  /** `findModules`: match once, then filter the captured candidates one by one. */
  method FindModules(input: string, builtins: set<string>) returns (result: seq<string>)
    ensures result == Discover(input, builtins)
    ensures |result| <= 1
    ensures forall n :: n in result ==> Keep(n, builtins) && IsName(n)
  {
    var matched := Exec(input);
    result := [];
    if matched.Some? && |matched.value.Array()| > 0 {
      var candidates := matched.value.Array()[1..];
      for k := 0 to |candidates|
        invariant result == Kept(candidates[..k], builtins)
      {
        var candidate := candidates[k];
        assert candidates[..k + 1][..k] == candidates[..k];
        if candidate == Electron {
          continue;
        }
        if candidate in builtins {
          continue;
        }
        if StartsWithDot(candidate) {
          continue;
        }
        result := result + [candidate];
      }
      assert candidates[..|candidates|] == candidates;
    }
  }

  /** The discovered modules of several texts, concatenated in the order of the texts. */
  function DiscoverAll(files: seq<string>, builtins: set<string>): (r: seq<string>)
    ensures |r| <= |files|
    ensures forall n :: n in r ==> Keep(n, builtins)
  {
    if files == [] then
      []
    else
      DiscoverAll(files[..|files| - 1], builtins) + Discover(files[|files| - 1], builtins)
  }

  /** One more text appends its modules to those of the texts before it. */
  lemma DiscoverAllStep(files: seq<string>, i: nat, builtins: set<string>)
    requires i < |files|
    ensures DiscoverAll(files[..i + 1], builtins) == DiscoverAll(files[..i], builtins) + Discover(files[i], builtins)
  {
    assert files[..i + 1][..i] == files[..i];
  }

  /** Dropping the last element of `a + b`, for a non-empty `b`, drops it from `b`. */
  lemma DropLastOfAppend<T>(a: seq<T>, b: seq<T>)
    requires b != []
    ensures (a + b)[..|a + b| - 1] == a + b[..|b| - 1]
    ensures (a + b)[|a + b| - 1] == b[|b| - 1]
  {
    assert (a + b)[..|a + b| - 1] == a + b[..|b| - 1];
  }

  /** The last text's modules come after those of the texts before it. */
  lemma DiscoverAllLast(files: seq<string>, builtins: set<string>)
    requires files != []
    ensures DiscoverAll(files, builtins)
         == DiscoverAll(files[..|files| - 1], builtins) + Discover(files[|files| - 1], builtins)
  {
  }

  /** Appending a non-empty run of texts ends with that run's last text. */
  lemma DiscoverAllAppendLast(first: seq<string>, second: seq<string>, builtins: set<string>)
    requires second != []
    ensures DiscoverAll(first + second, builtins)
         == DiscoverAll(first + second[..|second| - 1], builtins) + Discover(second[|second| - 1], builtins)
  {
    DropLastOfAppend(first, second);
    DiscoverAllLast(first + second, builtins);
  }

  /** Regrouping a concatenation of three parts. */
  lemma Regroup<T>(whole: seq<T>, front: seq<T>, last: seq<T>, head: seq<T>, middle: seq<T>, back: seq<T>)
    requires whole == front + last && front == head + middle && back == middle + last
    ensures whole == head + back
  {
  }

  /** One induction step of `DiscoverAllAppend`: the claim for `second` follows from the claim for all of it but its last text. */
  lemma DiscoverAllAppendStep(first: seq<string>, second: seq<string>, builtins: set<string>)
    requires second != []
    requires DiscoverAll(first + second[..|second| - 1], builtins)
          == DiscoverAll(first, builtins) + DiscoverAll(second[..|second| - 1], builtins)
    ensures DiscoverAll(first + second, builtins) == DiscoverAll(first, builtins) + DiscoverAll(second, builtins)
  {
    var init, last := second[..|second| - 1], second[|second| - 1];
    var whole, front, lastModules := DiscoverAll(first + second, builtins), DiscoverAll(first + init, builtins), Discover(last, builtins);
    assert whole == front + lastModules by {
      DiscoverAllAppendLast(first, second, builtins);
    }
    assert DiscoverAll(second, builtins) == DiscoverAll(init, builtins) + lastModules by {
      DiscoverAllLast(second, builtins);
    }
    Regroup(whole, front, lastModules, DiscoverAll(first, builtins), DiscoverAll(init, builtins), DiscoverAll(second, builtins));
  }

  /** The modules of two runs of texts, one after the other, are those of each run in turn. */
  lemma {:induction false} DiscoverAllAppend(first: seq<string>, second: seq<string>, builtins: set<string>)
    ensures DiscoverAll(first + second, builtins) == DiscoverAll(first, builtins) + DiscoverAll(second, builtins)
    decreases |second|
  {
    if second == [] {
      assert first + second == first;
    } else {
      DiscoverAllAppend(first, second[..|second| - 1], builtins);
      DiscoverAllAppendStep(first, second, builtins);
    }
  }

  /** `findModulesInEditors`: the main text's modules, then the renderer text's. */
  method FindModulesInEditors(values: EditorValues, builtins: set<string>) returns (modules: seq<string>)
    ensures modules == Discover(values.main, builtins) + Discover(values.renderer, builtins)
    ensures |modules| <= 2
    ensures forall n :: n in modules ==> Keep(n, builtins)
  {
    var files := [values.main, values.renderer];
    modules := [];
    for i := 0 to |files|
      invariant modules == DiscoverAll(files[..i], builtins)
    {
      var fileModules := FindModules(files[i], builtins);
      DiscoverAllStep(files, i, builtins);
      modules := modules + fileModules;
    }
    assert files[..|files|] == files;
    DiscoverAllPair(values.main, values.renderer, builtins);
  }

  /**
   * The result is decided by the leftmost match alone: its capture, if the
   * filter keeps it, and nothing otherwise.
   */
  lemma DiscoverLeftmost(input: string, builtins: set<string>, i: nat, name: string)
    requires IsMatchAt(input, i, name)
    requires forall j: nat, n: string :: j < i ==> !IsMatchAt(input, j, n)
    ensures Discover(input, builtins) == if Keep(name, builtins) then [name] else []
  {
    ExecOfLeftmost(input, i, name);
    var matched := Exec(input).value.Array();
    assert matched[1..] == [name];
    assert [name][..0] == [];
  }

  /** A text in which the pattern matches nowhere yields no module. */
  lemma DiscoverNoMatch(input: string, builtins: set<string>)
    requires forall j: nat, n: string :: !IsMatchAt(input, j, n)
    ensures Discover(input, builtins) == []
  {
  }

  /**
   * The relative-path filter never fires: the capture is made of class
   * characters and `.` is not one of them.
   */
  lemma DotFilterUnreachable(input: string)
    ensures Exec(input).Some? ==> !StartsWithDot(Exec(input).value.capture)
  {
  }

  /**
   * A text that starts with a require call yields that call's argument
   * when the filter keeps it, and nothing otherwise, whatever follows.
   */
  lemma {:induction false} LeadingRequire(open: char, name: string, close: char, rest: string, builtins: set<string>)
    requires IsQuote(open) && IsName(name) && IsQuote(close)
    ensures Discover(RequireCall(open, name, close) + rest, builtins)
         == if Keep(name, builtins) then [name] else []
  {
    MatchOfParts("", open, name, close, rest);
    assert "" + RequireCall(open, name, close) == RequireCall(open, name, close);
    DiscoverLeftmost(RequireCall(open, name, close) + rest, builtins, 0, name);
  }

  /**
   * Only the leftmost match is examined: a first require whose argument the
   * filter drops (a built-in such as `path`) hides any later require, even
   * one that matches and would be kept (such as `lodash`).
   */
  lemma LaterRequireIgnored(first: string, between: string, later: string, builtins: set<string>)
    requires IsName(first) && !Keep(first, builtins) && IsName(later)
    ensures var earlier := RequireCall('\'', first, '\'') + between;
      && IsMatchAt(earlier + RequireCall('\'', later, '\''), |earlier|, later)
      && Discover(earlier + RequireCall('\'', later, '\''), builtins) == []
  {
    var call := RequireCall('\'', first, '\'');
    var second := RequireCall('\'', later, '\'');
    MatchOfParts(call + between, '\'', later, '\'', "");
    assert call + between + second + "" == call + between + second;
    LeadingRequire('\'', first, '\'', between + second, builtins);
    assert call + (between + second) == call + between + second;
  }

  /** Two texts: the first text's modules, then the second's. */
  lemma DiscoverAllPair(first: string, second: string, builtins: set<string>)
    ensures DiscoverAll([first, second], builtins) == Discover(first, builtins) + Discover(second, builtins)
  {
    var files := [first, second];
    assert files[..1] == [first];
    assert files[..1][..0] == [];
  }

  /** A text that is one require call yields its argument when kept. */
  lemma SingleRequire(open: char, name: string, close: char, builtins: set<string>)
    requires IsQuote(open) && IsName(name) && IsQuote(close) && Keep(name, builtins)
    ensures Discover(RequireCall(open, name, close), builtins) == [name]
  {
    LeadingRequire(open, name, close, "", builtins);
    assert RequireCall(open, name, close) + "" == RequireCall(open, name, close);
  }

  /** An empty argument matches and is kept unless the empty name is a built-in. */
  lemma EmptyArgumentKept(builtins: set<string>)
    requires "" !in builtins
    ensures Discover("require('')", builtins) == [""]
  {
    assert "require('')" == RequireCall('\'', "", '\'');
    SingleRequire('\'', "", '\'', builtins);
  }

  /** The opening and the closing quote need not agree. */
  lemma MixedQuotesMatch(builtins: set<string>)
    requires "foo" !in builtins
    ensures Discover("require('foo\")", builtins) == ["foo"]
  {
    assert "require('foo\")" == RequireCall('\'', "foo", '"');
    SingleRequire('\'', "foo", '"', builtins);
  }

  /** The texts' modules come out in the order the texts are given. */
  lemma EditorsInOrder(first: string, second: string, builtins: set<string>)
    requires IsName(first) && Keep(first, builtins)
    requires IsName(second) && Keep(second, builtins)
    ensures DiscoverAll([RequireCall('\'', first, '\''), RequireCall('\'', second, '\'')], builtins)
         == [first, second]
  {
    DiscoverAllPair(RequireCall('\'', first, '\''), RequireCall('\'', second, '\''), builtins);
    SingleRequire('\'', first, '\'', builtins);
    SingleRequire('\'', second, '\'', builtins);
  }
}
