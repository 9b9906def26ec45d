/**
 * The kernel command line (multiboot2.c: mb_kernel_cmdline and
 * update_cmdline).  C strings are the characters before their NUL; the
 * loader environment is a map from names to values, and the outcome of
 * each allocation is an input.
 */
module Mb2Cmdline {
  import opened Wrappers

  type Env = map<string, string>

  function Getenv(env: Env, name: string): Option<string>
  {
    if name in env then Some(env[name]) else None
  }

  predicate OccursAt(s: string, pat: string, j: nat)
  {
    j + |pat| <= |s| && s[j..j + |pat|] == pat
  }

  function IndexFrom(s: string, pat: string, i: nat): (r: Option<nat>)
    ensures r.Some? ==> i <= r.value && OccursAt(s, pat, r.value)
    ensures forall j :: i <= j && (r.None? || j < r.value) ==> !OccursAt(s, pat, j)
    decreases |s| - i
  {
    if i + |pat| > |s| then None
    else if s[i..i + |pat|] == pat then Some(i)
    else IndexFrom(s, pat, i + 1)
  }

  /** A pattern whose first character does not occur in s is not found. */
  lemma {:induction false} NotFound(s: string, pat: string, i: nat)
    requires |pat| > 0 && pat[0] !in s
    ensures IndexFrom(s, pat, i) == None
    decreases |s| - i
  {
    if i + |pat| <= |s| {
      assert s[i..i + |pat|][0] == s[i];
      NotFound(s, pat, i + 1);
    }
  }

  /** strstr: the first position at which pat occurs in s. */
  function IndexOf(s: string, pat: string): (r: Option<nat>)
    ensures r.Some? ==> OccursAt(s, pat, r.value)
    ensures forall j: nat :: (r.None? || j < r.value) ==> !OccursAt(s, pat, j)
  {
    IndexFrom(s, pat, 0)
  }

  /** strsep(&s, ", "): the text before the first comma or space. */
  function Token(s: string): (t: string)
    ensures t <= s && ',' !in t && ' ' !in t
    ensures |t| < |s| ==> s[|t|] == ',' || s[|t|] == ' '
  {
    if |s| == 0 || s[0] == ',' || s[0] == ' ' then [] else [s[0]] + Token(s[1..])
  }

  predicate IsTty(c: string)
  {
    |c| >= 3 && c[..3] == "tty"
  }

  /** snprintf(mode, sizeof (mode), "%s-mode", c) with char mode[10]: at most 9 characters survive. */
  function ModeName(c: string): (m: string)
    ensures |m| == if |c| + 5 <= 9 then |c| + 5 else 9
  {
    var full := c + "-mode";
    if |full| <= 9 then full else full[..9]
  }

  datatype Console = Console(name: string) | NoMemory | Unset

  /** os_console, or the first item of console when it is unset (both strdup'ed). */
  function OsConsole(env: Env, dupOk: bool): Console
  {
    if "os_console" in env then (if dupOk then Console(env["os_console"]) else NoMemory)
    else if "console" in env then (if dupOk then Console(Token(env["console"])) else NoMemory)
    else Unset
  }

  /**
   * Unchanged: the original string is returned.  Rebuilt: a new string in a
   * buffer of alloc bytes.  Undefined: the code reads or formats through a
   * pointer it has no right to (strdup of an unset $console, a "console"
   * at the very end of the line, strlen of an unset $ttyX-mode).
   */
  datatype CmdOutcome = Unchanged | Rebuilt(line: string, alloc: nat) | Undefined

  /** The tty-mode part of the allocation: 13 as written (",ttyX-mode=\"\""), or its real size for name c. */
  function TtyTerm(c: string, sized: bool): nat
  {
    if sized then 9 + |c| else 13
  }

  /** " -B console=C" and, when a mode is known, ",C-mode=\"M\"". */
  function ConsoleArg(c: string, mode: Option<string>): string
  {
    " -B console=" + c + (if mode.Some? then "," + c + "-mode=\"" + mode.value + "\"" else "")
  }

  function Append(cl: string, c: string, mode: Option<string>, mallocOk: bool, sized: bool): CmdOutcome
  {
    if !mallocOk then Unchanged
    else Rebuilt(cl + ConsoleArg(c, mode),
                 |cl| + 1 + 12 + |c| + (if mode.Some? then TtyTerm(c, sized) + |mode.value| else 0))
  }

  /** The tty name after "console=" at p, as strncpy(mode, tmp, 4) takes it. */
  function SetTty(cl: string, p: nat): string
    requires p + 8 <= |cl|
  {
    var rest := cl[p + 8..];
    if |rest| <= 4 then rest else rest[..4]
  }

  function Update(cl: string, env: Env, dupOk: bool, mallocOk: bool, sized: bool): CmdOutcome
  {
    match OsConsole(env, dupOk)
    case NoMemory => Unchanged
    case Unset => Undefined
    case Console(c) =>
      var mode := if IsTty(c) then Getenv(env, ModeName(c)) else None;
      if IndexOf(cl, "-B").None? then Append(cl, c, mode, mallocOk, sized)
      else
        match IndexOf(cl, "console")
        case None => Append(cl, c, mode, mallocOk, sized)
        case Some(p) =>
          if p + 8 > |cl| then Undefined
          else if !IsTty(cl[p + 8..]) then Unchanged
          else
            var key := SetTty(cl, p) + "-mode";
            if key !in env then Undefined
            else if !mallocOk then Unchanged
            else Rebuilt(cl + "," + key + "=\"" + env[key] + "\"", |cl| + 1 + 13 + |env[key]|)
  }

  /** update_cmdline as written. */
  function UpdateCmdline(cl: string, env: Env, dupOk: bool, mallocOk: bool): CmdOutcome
  {
    Update(cl, env, dupOk, mallocOk, false)
  }

  /** update_cmdline with the tty-mode term sized for the console name actually printed. */
  function UpdateCmdlineFixed(cl: string, env: Env, dupOk: bool, mallocOk: bool): CmdOutcome
  {
    Update(cl, env, dupOk, mallocOk, true)
  }

  /** The line the kernel receives: the rebuilt one, or the original. */
  function Result(cl: string, o: CmdOutcome): string
  {
    if o.Rebuilt? then o.line else cl
  }

  /** Without "-B" the console argument is appended, with the tty mode when the console is a tty whose mode is set. */
  lemma UpdateWithoutB(cl: string, env: Env, c: string)
    requires OsConsole(env, true) == Console(c) && IndexOf(cl, "-B").None?
    ensures var mode := if IsTty(c) then Getenv(env, ModeName(c)) else None;
            UpdateCmdline(cl, env, true, true).Rebuilt? &&
            UpdateCmdline(cl, env, true, true).line == cl + ConsoleArg(c, mode)
    ensures !IsTty(c) ==> UpdateCmdline(cl, env, true, true).line == cl + " -B console=" + c
  {
  }

  /** With "-B" and a console= setting that is not a tty, the line is left alone. */
  lemma UpdateKeepsNonTty(cl: string, env: Env, dupOk: bool, mallocOk: bool, p: nat)
    requires OsConsole(env, dupOk).Console?
    requires IndexOf(cl, "-B").Some? && IndexOf(cl, "console") == Some(p)
    requires p + 8 <= |cl| && !IsTty(cl[p + 8..])
    ensures UpdateCmdline(cl, env, dupOk, mallocOk) == Unchanged
  {
  }

  /** Every outcome keeps the original line as a prefix; the update only ever appends. */
  lemma UpdateExtends(cl: string, env: Env, dupOk: bool, mallocOk: bool, sized: bool)
    ensures cl <= Result(cl, Update(cl, env, dupOk, mallocOk, sized))
  {
    var o := Update(cl, env, dupOk, mallocOk, sized);
    if o.Rebuilt? {
      assert o.line[..|cl|] == cl;
    }
  }

  /**
   * The buffer fits the rebuilt line and its NUL whenever no tty mode is
   * appended for a console name other than 4 characters, and exactly when
   * no mode at all is appended.
   */
  lemma UpdateAllocation(cl: string, env: Env, dupOk: bool, mallocOk: bool)
    requires UpdateCmdline(cl, env, dupOk, mallocOk).Rebuilt?
    ensures var o := UpdateCmdline(cl, env, dupOk, mallocOk);
            var c := OsConsole(env, dupOk).name;
            var mode := if IsTty(c) then Getenv(env, ModeName(c)) else None;
            var appended := IndexOf(cl, "-B").None? || IndexOf(cl, "console").None?;
            (appended && mode.None? ==> o.alloc == |o.line| + 1) &&
            (appended && mode.Some? ==> o.alloc + |c| == |o.line| + 1 + 4) &&
            (!appended ==> o.alloc >= |o.line| + 1)
  {
  }

  /** With the sized term the buffer always holds the line and its NUL. */
  lemma UpdateFixedAllocation(cl: string, env: Env, dupOk: bool, mallocOk: bool)
    requires UpdateCmdlineFixed(cl, env, dupOk, mallocOk).Rebuilt?
    ensures UpdateCmdlineFixed(cl, env, dupOk, mallocOk).alloc >= |UpdateCmdlineFixed(cl, env, dupOk, mallocOk).line| + 1
  {
  }

  /** The two agree on the line; they differ only in the size asked of malloc. */
  lemma FixedSameLine(cl: string, env: Env, dupOk: bool, mallocOk: bool)
    ensures Result(cl, UpdateCmdline(cl, env, dupOk, mallocOk)) == Result(cl, UpdateCmdlineFixed(cl, env, dupOk, mallocOk))
  {
  }

  /** os_console=ttyab with $ttyab-mod set: the line is one byte longer than its buffer. */
  lemma OverflowAsWritten()
    ensures var env := map["os_console" := "ttyab", "ttyab-mod" := "9600,8,n,1,-"];
            var o := UpdateCmdline("unix", env, true, true);
            o.Rebuilt? && o.alloc == |o.line|
  {
    var env := map["os_console" := "ttyab", "ttyab-mod" := "9600,8,n,1,-"];
    assert "ttyab" + "-mode" == "ttyab-mode";
    assert "ttyab-mode"[..9] == "ttyab-mod" by {
      forall i | 0 <= i < 9
        ensures "ttyab-mode"[..9][i] == "ttyab-mod"[i]
      {
      }
    }
    assert ModeName("ttyab") == "ttyab-mod";
    NotFound("unix", "-B", 0);
  }

  // ------------------------------------------------------------------
  // mb_kernel_cmdline

  /** The root device: a ZFS root passes its boot file system with -B. */
  datatype RootDev = RootDev(isZfs: bool, bootfs: string)

  /** "name[ args][ -B bootfs]". */
  function BaseLine(name: string, args: Option<string>, root: RootDev): string
  {
    name + (if args.Some? then " " + args.value else "") + (if root.isZfs then " -B " + root.bootfs else "")
  }

  /** The length mb_kernel_cmdline asks of malloc. */
  function BaseLen(name: string, args: Option<string>, root: RootDev): nat
  {
    |name| + 1 + (if args.Some? then |args.value| + 1 else 0) + (if root.isZfs then 3 + |root.bootfs| + 1 else 0)
  }

  /** The buffer is exactly strlen + 1 of the formatted line, so snprintf never truncates. */
  lemma BaseLenExact(name: string, args: Option<string>, root: RootDev)
    ensures BaseLen(name, args, root) == |BaseLine(name, args, root)| + 1
  {
  }

  datatype KernelLine = OutOfMemory | Line(s: string) | UndefinedLine

  /** mb_kernel_cmdline: f_args, else $boot-args; then update_cmdline. */
  function KernelCmdline(name: string, fArgs: Option<string>, root: RootDev, env: Env,
                         mallocOk: bool, dupOk: bool, updateMallocOk: bool): KernelLine
  {
    var args := if fArgs.Some? then fArgs else Getenv(env, "boot-args");
    if !mallocOk then OutOfMemory
    else
      var base := BaseLine(name, args, root);
      var o := UpdateCmdline(base, env, dupOk, updateMallocOk);
      if o.Undefined? then UndefinedLine else Line(Result(base, o))
  }

  /** The kernel line starts with the kernel name, its arguments and the ZFS -B option. */
  lemma KernelCmdlineStartsWith(name: string, fArgs: Option<string>, root: RootDev, env: Env,
                                 dupOk: bool, updateMallocOk: bool)
    requires KernelCmdline(name, fArgs, root, env, true, dupOk, updateMallocOk).Line?
    ensures var args := if fArgs.Some? then fArgs else Getenv(env, "boot-args");
            BaseLine(name, args, root) <= KernelCmdline(name, fArgs, root, env, true, dupOk, updateMallocOk).s
  {
    var args := if fArgs.Some? then fArgs else Getenv(env, "boot-args");
    UpdateExtends(BaseLine(name, args, root), env, dupOk, updateMallocOk, false);
  }
}
