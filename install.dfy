/**
 * Module installation (src/renderer/npm.ts, `installModules`): the command
 * line handed to `child_process.exec`, and how the exec callback settles the
 * returned promise. The process itself is a parameter of the model.
 */
module Install {
  import opened Wrappers

  const NpmInstall: string := "npm i"
  const SaveFlag: string := "-S"

  /** `Array.prototype.join(sep)` on an array of strings. */
  function Join(parts: seq<string>, sep: string): string {
    if |parts| == 0 then ""
    else if |parts| == 1 then parts[0]
    else parts[0] + sep + Join(parts[1..], sep)
  }

  /** Reference definition: `" " + n` for every name `n`, in order. */
  function Spaced(names: seq<string>): string {
    if names == [] then "" else " " + names[0] + Spaced(names[1..])
  }

  /** Joining non-empty names with spaces, after one leading space, is Spaced. */
  lemma {:induction false} JoinIsSpaced(names: seq<string>)
    requires names != []
    ensures " " + Join(names, " ") == Spaced(names)
  {
    if |names| > 1 {
      JoinIsSpaced(names[1..]);
      assert Spaced(names[1..][1..]) == Spaced(names[2..]);
    }
  }

  /**
   * `['npm i'].concat(['-S'], names).join(' ')`: the install command is
   * `npm i -S` followed by a space and each name in turn, without escaping.
   */
  function CommandLine(names: seq<string>): (command: string)
    ensures command == NpmInstall + " " + SaveFlag + Spaced(names)
  {
    JoinAfterHeads(NpmInstall, SaveFlag, names);
    Join([NpmInstall] + [SaveFlag] + names, " ")
  }

  /** A first word followed by the names, joined with spaces, is the word then Spaced(names). */
  lemma JoinAfterHead(head: string, names: seq<string>)
    ensures Join([head] + names, " ") == head + Spaced(names)
  {
    if names == [] {
      assert [head] + names == [head];
      assert head + "" == head;
    } else {
      assert ([head] + names)[1..] == names;
      JoinIsSpaced(names);
      assert head + " " + Join(names, " ") == head + (" " + Join(names, " "));
    }
  }

  /** Two first words followed by the names, joined with spaces. */
  lemma JoinAfterHeads(first: string, second: string, names: seq<string>)
    ensures Join([first] + [second] + names, " ") == first + " " + second + Spaced(names)
  {
    var parts := [first] + [second] + names;
    assert parts[1..] == [second] + names;
    JoinAfterHead(second, names);
    assert first + " " + (second + Spaced(names)) == first + " " + second + Spaced(names);
  }

  predicate NoSpace(word: string) {
    ' ' !in word
  }

  /** `String.prototype.split(' ')`: the words between single spaces. */
  function Split(s: string): (words: seq<string>)
    ensures |words| >= 1
  {
    if s == [] then [""]
    else if s[0] == ' ' then [""] + Split(s[1..])
    else
      var rest := Split(s[1..]);
      [[s[0]] + rest[0]] + rest[1..]
  }

  /** A word without spaces glues onto the first word of what follows it. */
  lemma {:induction false} SplitPrefix(word: string, tail: string)
    requires NoSpace(word)
    ensures Split(word + tail) == [word + Split(tail)[0]] + Split(tail)[1..]
  {
    if word != [] {
      SplitPrefix(word[1..], tail);
      assert (word + tail)[0] == word[0] != ' ';
      assert (word + tail)[1..] == word[1..] + tail;
      var rest := Split(word[1..] + tail);
      assert rest[1..] == Split(tail)[1..];
      assert [word[0]] + rest[0] == word + Split(tail)[0];
    } else {
      assert word + tail == tail;
      assert word + Split(tail)[0] == Split(tail)[0];
      assert [Split(tail)[0]] + Split(tail)[1..] == Split(tail);
    }
  }

  /** A word without spaces followed by one space is a word of its own. */
  lemma SplitWord(word: string, tail: string)
    requires NoSpace(word)
    ensures Split(word + " " + tail) == [word] + Split(tail)
  {
    SplitPrefix(word, " " + tail);
    assert (" " + tail)[1..] == tail;
    assert Split(" " + tail) == [""] + Split(tail);
    assert word + " " + tail == word + (" " + tail);
    assert word + "" == word;
    assert ([""] + Split(tail))[1..] == Split(tail);
  }

  /** Splitting a spaceless word followed by Spaced(names) gives back the word and the names. */
  lemma {:induction false} SplitSpaced(word: string, names: seq<string>)
    requires NoSpace(word)
    requires forall k :: 0 <= k < |names| ==> NoSpace(names[k])
    ensures Split(word + Spaced(names)) == [word] + names
    decreases names
  {
    if names == [] {
      SplitPrefix(word, "");
      assert word + "" == word;
    } else {
      SplitSpaced(names[0], names[1..]);
      SplitWord(word, names[0] + Spaced(names[1..]));
      assert word + Spaced(names) == word + " " + (names[0] + Spaced(names[1..]));
      assert [names[0]] + names[1..] == names;
    }
  }

  /** The command regrouped word by word. */
  lemma CommandLineWords(tail: string)
    ensures NpmInstall + " " + tail == "npm" + " " + ("i" + " " + tail)
  {
    assert NpmInstall == "npm" + " " + "i";
  }

  /**
   * When no name contains a space, the words of the command are exactly
   * `npm`, `i`, `-S` and the names, in order.
   */
  lemma CommandWords(names: seq<string>)
    requires forall k :: 0 <= k < |names| ==> NoSpace(names[k])
    ensures Split(CommandLine(names)) == ["npm", "i", "-S"] + names
  {
    var tail := SaveFlag + Spaced(names);
    var afterI := "i" + " " + tail;
    assert Split(tail) == [SaveFlag] + names by {
      SplitSpaced(SaveFlag, names);
    }
    assert Split(afterI) == ["i"] + ([SaveFlag] + names) by {
      SplitWord("i", tail);
    }
    assert Split("npm" + " " + afterI) == ["npm"] + (["i"] + ([SaveFlag] + names)) by {
      SplitWord("npm", afterI);
    }
    assert CommandLine(names) == "npm" + " " + afterI by {
      CommandLineWords(tail);
    }
  }

  /**
   * Names are not escaped: a name holding a space becomes two words of the
   * command.
   */
  lemma UnescapedName(name: string, a: string, b: string)
    requires name == a + " " + b && NoSpace(a) && NoSpace(b)
    ensures Split(CommandLine([name])) == ["npm", "i", "-S", a, b]
  {
    assert Split(name) == [a, b] by {
      SplitSpaced(b, []);
      assert b + Spaced([]) == b;
      SplitWord(a, b);
    }
    var flagged := SaveFlag + " " + name;
    assert Split(flagged) == [SaveFlag, a, b] by {
      SplitWord(SaveFlag, name);
    }
    var afterI := "i" + " " + flagged;
    assert Split(afterI) == ["i", SaveFlag, a, b] by {
      SplitWord("i", flagged);
    }
    assert CommandLine([name]) == "npm" + " " + afterI by {
      assert Spaced([name]) == " " + name + "";
    }
    SplitWord("npm", afterI);
  }

  /** The state of a JavaScript promise; once settled it never changes. */
  datatype Promise<T, E> = Pending | Fulfilled(value: T) | Rejected(reason: E)

  /** `resolve(v)`: only a pending promise is affected. */
  function Resolve<T, E>(p: Promise<T, E>, v: T): Promise<T, E> {
    if p.Pending? then Fulfilled(v) else p
  }

  /** `reject(e)`: only a pending promise is affected. */
  function Reject<T, E>(p: Promise<T, E>, e: E): Promise<T, E> {
    if p.Pending? then Rejected(e) else p
  }

  /** The arguments `exec` passes to its callback: an error or none, and the output. */
  datatype ExecOutcome<E> = ExecOutcome(error: Option<E>, stdout: string)

  /**
   * The exec callback: `reject(error)` when there is an error, then
   * `resolve(result.toString())` unconditionally. An error always wins,
   * because the promise is already settled when resolve runs.
   */
  function Settle<E>(outcome: ExecOutcome<E>): (p: Promise<string, E>)
    ensures !p.Pending?
    ensures p.Rejected? <==> outcome.error.Some?
    ensures outcome.error.Some? ==> p == Rejected(outcome.error.value)
    ensures outcome.error.None? ==> p == Fulfilled(outcome.stdout)
  {
    var afterError := if outcome.error.Some? then Reject(Pending, outcome.error.value) else Pending;
    Resolve(afterError, outcome.stdout)
  }

  /** The one call `installModules` makes to `exec`: a command and a working directory. */
  datatype ExecRequest = ExecRequest(command: string, cwd: string)

  /**
   * `installModules({ dir }, ...names)`. The child process is the
   * parameter `exec`, which maps the request to the callback's arguments;
   * the result is the promise's state once that callback has run.
   */
  function InstallModules<E>(dir: string, names: seq<string>, exec: ExecRequest -> ExecOutcome<E>)
    : (r: (ExecRequest, Promise<string, E>))
    ensures r.0.cwd == dir
    ensures r.0.command == NpmInstall + " " + SaveFlag + Spaced(names)
    ensures !r.1.Pending?
    ensures r.1.Rejected? <==> exec(r.0).error.Some?
    ensures exec(r.0).error.Some? ==> r.1 == Rejected(exec(r.0).error.value)
    ensures exec(r.0).error.None? ==> r.1 == Fulfilled(exec(r.0).stdout)
  {
    var request := ExecRequest(CommandLine(names), dir);
    (request, Settle(exec(request)))
  }
}
