/**
 * The process-control rules of run.js: the command-line check made before
 * the server starts, and the standard-input handler that stops the process
 * on the command `stop` and rejects everything else.
 */
module ProcessControl {
  import opened Options
  import opened Text

  const Port: nat := 5000
  const UsageMessage: string := "Usage: node run.js"
  const Prompt: string := "Stop to shutdown the server: "
  const ShutdownMessage: string := "Shuting down the server"
  const InvalidPrefix: string := "Invalid command: "

  /** What the process does once its arguments are checked. */
  datatype Startup = Usage(message: string, exitCode: int) | Serve(port: nat)

  /**
   * Lines 25-30. `argv` is `process.argv`: the interpreter, the script, then
   * the user's arguments, which `slice(2)` keeps (none when `argv` is shorter).
   * The usage line is what `console.log` writes: the message and a newline.
   */
  function Start(argv: seq<string>): (d: Startup)
    ensures d.Usage? <==> |argv| > 2
    ensures d.Usage? ==> d.message == UsageMessage + "\n" && d.exitCode == 1
    ensures d.Serve? ==> d.port == Port
  {
    var args := if |argv| <= 2 then [] else argv[2..];
    if |args| != 0 then Usage(UsageMessage + "\n", 1) else Serve(Port)
  }

  /** The characters `String.prototype.trim` removes: ECMAScript WhiteSpace and LineTerminator. */
  predicate IsSpace(c: char)
  {
    || c == '\t' || c == '\n' || c == '\U{000B}' || c == '\U{000C}' || c == '\r' || c == ' '
    || c == '\U{00A0}' || c == '\U{1680}' || ('\U{2000}' <= c <= '\U{200A}')
    || c == '\U{2028}' || c == '\U{2029}' || c == '\U{202F}' || c == '\U{205F}'
    || c == '\U{3000}' || c == '\U{FEFF}'
  }

  predicate AllSpace(s: string)
  {
    forall i :: 0 <= i < |s| ==> IsSpace(s[i])
  }

  /** A string with no removable character at either end. */
  predicate Trimmed(s: string)
  {
    s == [] || (!IsSpace(s[0]) && !IsSpace(s[|s| - 1]))
  }

  /** Drops the leading whitespace. */
  function TrimStart(s: string): string
  {
    if s != [] && IsSpace(s[0]) then TrimStart(s[1..]) else s
  }

  /** Drops the trailing whitespace. */
  function TrimEnd(s: string): string
  {
    if s != [] && IsSpace(s[|s| - 1]) then TrimEnd(s[..|s| - 1]) else s
  }

  /** `String.prototype.trim`. */
  function Trim(s: string): string
  {
    TrimEnd(TrimStart(s))
  }

  /** `TrimStart` keeps a suffix and drops only whitespace, up to the first non-space. */
  lemma {:induction false} TrimStartSpec(s: string)
    ensures var r := TrimStart(s);
      && |r| <= |s| && r == s[|s| - |r|..]
      && AllSpace(s[..|s| - |r|])
      && (r != [] ==> !IsSpace(r[0]))
  {
    if s != [] && IsSpace(s[0]) {
      TrimStartSpec(s[1..]);
      var r := TrimStart(s[1..]);
      assert s[..|s| - |r|] == [s[0]] + s[1..][..|s| - 1 - |r|];
    }
  }

  /** `TrimEnd` keeps a prefix and drops only whitespace, back to the last non-space. */
  lemma {:induction false} TrimEndSpec(s: string)
    ensures var r := TrimEnd(s);
      && r <= s
      && AllSpace(s[|r|..])
      && (r != [] ==> !IsSpace(r[|r| - 1]))
  {
    if s != [] && IsSpace(s[|s| - 1]) {
      TrimEndSpec(s[..|s| - 1]);
      var r := TrimEnd(s[..|s| - 1]);
      assert s[|r|..] == s[..|s| - 1][|r|..] + [s[|s| - 1]];
    }
  }

  /** The trimmed form has no removable character at either end. */
  lemma TrimIsTrimmed(s: string)
    ensures Trimmed(Trim(s))
  {
    TrimStartSpec(s);
    TrimEndSpec(TrimStart(s));
  }

  /** Whitespace in front of a string that starts with a non-space is exactly what `TrimStart` drops. */
  lemma {:induction false} TrimStartDrops(a: string, m: string)
    requires AllSpace(a) && (m == [] || !IsSpace(m[0]))
    ensures TrimStart(a + m) == m
  {
    if a == [] {
      assert a + m == m;
    } else {
      assert (a + m)[1..] == a[1..] + m;
      TrimStartDrops(a[1..], m);
    }
  }

  /** Whitespace after a string that ends in a non-space is exactly what `TrimEnd` drops. */
  lemma {:induction false} TrimEndDrops(m: string, b: string)
    requires AllSpace(b) && (m == [] || !IsSpace(m[|m| - 1]))
    ensures TrimEnd(m + b) == m
  {
    if b == [] {
      assert m + b == m;
    } else {
      var n := |b| - 1;
      assert (m + b)[..|m + b| - 1] == m + b[..n];
      TrimEndDrops(m, b[..n]);
    }
  }

  /**
   * `Trim` is characterised by its result: surrounding a trimmed string with
   * whitespace on either side and trimming gives that string back.
   */
  lemma TrimUnique(a: string, m: string, b: string)
    requires AllSpace(a) && AllSpace(b) && Trimmed(m)
    ensures Trim(a + m + b) == m
  {
    if m == [] {
      assert a + m + b == a + b;
      assert AllSpace(a + b);
      TrimStartDrops(a + b, []);
      assert a + b + [] == a + b;
    } else {
      assert a + m + b == a + (m + b);
      TrimStartDrops(a, m + b);
      TrimEndDrops(m, b);
    }
  }

  /** Every string is its trimmed form between removable whitespace. */
  lemma TrimSplits(s: string)
    ensures exists a, b :: AllSpace(a) && AllSpace(b) && s == a + Trim(s) + b
  {
    var start := TrimStart(s);
    var r := TrimEnd(start);
    TrimStartSpec(s);
    TrimEndSpec(start);
    var a, b := s[..|s| - |start|], start[|r|..];
    assert start == r + b by {
      assert start[..|r|] == r;
    }
    assert s == a + start;
    Regroup3(a, r, b);
    assert AllSpace(a) && AllSpace(b) && s == a + Trim(s) + b;
  }

  /** Trimming twice is trimming once. */
  lemma TrimIdempotent(s: string)
    ensures Trim(Trim(s)) == Trim(s)
  {
    TrimIsTrimmed(s);
    TrimUnique([], Trim(s), []);
    assert [] + Trim(s) + [] == Trim(s);
  }

  /** What one chunk read from standard input leads to. */
  datatype Reaction = Exit(code: int, message: string) | Reject(message: string)

  /** Lines 51-57: the reaction to a trimmed command. */
  function React(command: string): Reaction
  {
    if command == "stop" then Exit(0, ShutdownMessage) else Reject(InvalidPrefix + command)
  }

  /** Lines 50-57: trim the chunk, then react to the command it holds. */
  function Dispatch(chunk: string): Reaction
  {
    React(Trim(chunk))
  }

  /** `stop` with nothing but whitespace around it stops the process with status 0. */
  lemma PaddedStopExits(a: string, b: string)
    requires AllSpace(a) && AllSpace(b)
    ensures Dispatch(a + "stop" + b) == Exit(0, ShutdownMessage)
  {
    TrimUnique(a, "stop", b);
  }

  /**
   * The stop rule: a chunk stops the process exactly when it is `stop` (in
   * lower case) with nothing but whitespace around it; any other chunk is
   * rejected by naming its trimmed form.
   */
  lemma DispatchStopsExactly(chunk: string)
    ensures Dispatch(chunk).Exit? <==> exists a, b :: AllSpace(a) && AllSpace(b) && chunk == a + "stop" + b
    ensures Dispatch(chunk).Exit? ==> Dispatch(chunk) == Exit(0, ShutdownMessage)
    ensures Dispatch(chunk).Reject? ==> Dispatch(chunk).message == InvalidPrefix + Trim(chunk)
  {
    if exists a, b :: AllSpace(a) && AllSpace(b) && chunk == a + "stop" + b {
      var a, b :| AllSpace(a) && AllSpace(b) && chunk == a + "stop" + b;
      PaddedStopExits(a, b);
    }
    if Trim(chunk) == "stop" {
      TrimSplits(chunk);
    }
  }

  /** The commands the handler sees: each chunk `read()` returned, trimmed. */
  function Commands(chunks: seq<string>): (commands: seq<string>)
    ensures |commands| == |chunks|
  {
    seq(|chunks|, i requires 0 <= i < |chunks| => Trim(chunks[i]))
  }

  /** What the standard-input handler writes, and the exit status if it stops the process. */
  datatype Outcome = Outcome(output: seq<string>, exitCode: Option<int>)

  /**
   * The commands handled in order: each rejected one writes its message line
   * and a fresh prompt; the first `stop` writes the shutdown line and ends
   * the process, so the commands after it are never handled.
   */
  function Session(commands: seq<string>): Outcome
  {
    if commands == [] then
      Outcome([], None)
    else
      match React(commands[0])
      case Exit(code, message) => Outcome([message + "\n"], Some(code))
      case Reject(message) =>
        var rest := Session(commands[1..]);
        Outcome([message + "\n", Prompt] + rest.output, rest.exitCode)
  }

  /** How `Session` handles the command at index `i` of what is left. */
  lemma SessionStep(commands: seq<string>, i: nat)
    requires i < |commands|
    ensures var rest, next := Session(commands[i..]), Session(commands[i + 1..]);
      && (commands[i] == "stop" ==> rest == Outcome([ShutdownMessage + "\n"], Some(0)))
      && (commands[i] != "stop" ==>
            rest == Outcome([InvalidPrefix + commands[i] + "\n", Prompt] + next.output, next.exitCode))
  {
    assert commands[i..][0] == commands[i];
    assert commands[i..][1..] == commands[i + 1..];
  }

  /** The lines written for commands that are all rejected: a message line and a prompt each. */
  function Rejections(commands: seq<string>): (out: seq<string>)
    ensures |out| == 2 * |commands|
  {
    if commands == [] then []
    else
      var n := |commands| - 1;
      Rejections(commands[..n]) + [InvalidPrefix + commands[n] + "\n", Prompt]
  }

  /** The two lines written for the `j`-th rejected command. */
  lemma {:induction false} RejectionsAt(commands: seq<string>, j: nat)
    requires j < |commands|
    ensures Rejections(commands)[2 * j] == InvalidPrefix + commands[j] + "\n"
    ensures Rejections(commands)[2 * j + 1] == Prompt
  {
    var n := |commands| - 1;
    if j < n {
      RejectionsAt(commands[..n], j);
    }
  }

  /** Until the first `stop`, the session writes the rejections of the commands so far, then goes on. */
  lemma {:induction false} SessionAfterRejections(commands: seq<string>, k: nat)
    requires k <= |commands| && "stop" !in commands[..k]
    ensures var rest := Session(commands[k..]);
      Session(commands) == Outcome(Rejections(commands[..k]) + rest.output, rest.exitCode)
  {
    if k == 0 {
      assert commands[k..] == commands;
    } else {
      assert commands[..k - 1] == commands[..k][..k - 1];
      assert commands[k - 1] == commands[..k][k - 1];
      SessionAfterRejections(commands, k - 1);
      SessionStep(commands, k - 1);
      var next := Session(commands[k..]).output;
      var pair := [InvalidPrefix + commands[k - 1] + "\n", Prompt];
      assert Rejections(commands[..k]) == Rejections(commands[..k - 1]) + pair;
      assert Rejections(commands[..k - 1]) + (pair + next) == Rejections(commands[..k]) + next;
    }
  }

  /** Lines 48-59: the `readable` handler, reading chunks until none is left or `stop` arrives. */
  method OnReadable(chunks: seq<string>) returns (output: seq<string>, exitCode: Option<int>)
    ensures Outcome(output, exitCode) == Session(Commands(chunks))
  {
    ghost var commands := Commands(chunks);
    output, exitCode := [], None;
    var i := 0;
    while i < |chunks|
      invariant 0 <= i <= |chunks|
      invariant "stop" !in commands[..i]
      invariant output == Rejections(commands[..i]) && exitCode == None
    {
      var command := Trim(chunks[i]);
      assert command == commands[i];
      SessionAfterRejections(commands, i);
      SessionStep(commands, i);
      if command == "stop" {
        output := output + [ShutdownMessage + "\n"];
        exitCode := Some(0);
        return;
      }
      output := output + [InvalidPrefix + command + "\n", Prompt];
      assert commands[..i + 1] == commands[..i] + [command];
      assert commands[..i + 1][..i] == commands[..i];
      i := i + 1;
    }
    SessionAfterRejections(commands, i);
    assert commands[i..] == [] && commands[..i] == commands;
    assert output + [] == output;
  }

  /** The process exits, with status 0, exactly when some command is `stop`; otherwise it keeps running. */
  lemma {:induction false} SessionExitsIffStop(commands: seq<string>)
    ensures Session(commands).exitCode == Some(0) <==> "stop" in commands
    ensures Session(commands).exitCode != Some(0) ==> Session(commands).exitCode == None
  {
    if commands != [] {
      SessionExitsIffStop(commands[1..]);
      assert commands == [commands[0]] + commands[1..];
    }
  }

  /**
   * Before the first `stop`, each command gets its `Invalid command:` line and
   * a prompt, in the order the commands came; the `stop` itself gets the
   * shutdown line, which is the last thing written.
   */
  lemma SessionRejectsUntilStop(commands: seq<string>, k: nat)
    requires k <= |commands| && "stop" !in commands[..k]
    ensures var out := Session(commands).output;
      && |out| >= 2 * k
      && (forall j :: 0 <= j < k ==> out[2 * j] == InvalidPrefix + commands[j] + "\n" && out[2 * j + 1] == Prompt)
      && (k < |commands| && commands[k] == "stop" ==> |out| == 2 * k + 1 && out[2 * k] == ShutdownMessage + "\n")
  {
    SessionAfterRejections(commands, k);
    var done := Rejections(commands[..k]);
    forall j | 0 <= j < k
      ensures done[2 * j] == InvalidPrefix + commands[j] + "\n" && done[2 * j + 1] == Prompt
    {
      RejectionsAt(commands[..k], j);
    }
    if k < |commands| {
      SessionStep(commands, k);
    }
  }
}
