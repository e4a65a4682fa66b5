/** The hook dispatcher (hook.go): an optional external program told about
    account events as `program TAG message...`. */
module Hook {
  import opened Wrappers
  import opened Process

  /** The event vocabulary (`hookEvent`): warnings (W), errors (E) and
      successes (I). */
  datatype HookEvent =
    | WarnJSON | ErrGitOps | ErrUserAdd | ErrUserDel | ErrUserMod
    | UserAdd | UserDel | UserMod

  /** The tag passed to the hook program as its first argument. */
  function Tag(e: HookEvent): string {
    match e
    case WarnJSON => "WJSON"
    case ErrGitOps => "EGITOPS"
    case ErrUserAdd => "EUSERADD"
    case ErrUserDel => "EUSERDEL"
    case ErrUserMod => "EUSERMOD"
    case UserAdd => "IUSERADD"
    case UserDel => "IUSERDEL"
    case UserMod => "IUSERMOD"
  }

  /** No two events share a tag, so the hook program can tell them apart. */
  lemma TagsDistinct(e1: HookEvent, e2: HookEvent)
    ensures Tag(e1) == Tag(e2) ==> e1 == e2
  {
  }

  /** The two `hookExecutor` implementations. */
  datatype HookExecutor =
    | Noop                  // `noopHookExecutor`: no hook configured
    | CommandHook(path: string)  // `hookCommandExecutor`, bound to a resolved program

  /** `getHookExecutor`: `lookPath` stands for `exec.LookPath`, the search of
      the program search path, and yields a path or an error. */
  function GetHookExecutor(cmd: string, lookPath: string -> Result<string, string>): (r: Result<HookExecutor, string>)
    ensures r == Ok(Noop) <==> cmd == ""
    ensures r.Err? <==> cmd != "" && lookPath(cmd).Err?
    ensures r.Err? ==> r.error == lookPath(cmd).error
    ensures r.Ok? && cmd != "" ==> lookPath(cmd).Ok? && r.value == CommandHook(lookPath(cmd).value)
  {
    if cmd != "" then
      match lookPath(cmd)
      case Err(e) => Err(e)
      case Ok(path) => Ok(CommandHook(path))
    else Ok(Noop)
  }

  /** With no hook name the search path is never consulted: the answer is the
      same for every lookup. */
  lemma EmptyNameSkipsLookup(look1: string -> Result<string, string>, look2: string -> Result<string, string>)
    ensures GetHookExecutor("", look1) == GetHookExecutor("", look2) == Ok(Noop)
  {
  }

  /** The hook program's arguments: the tag, then every message in order
      (`make` and two `append`s in `Exec`). */
  method HookArgs(evt: HookEvent, msgs: seq<string>) returns (args: seq<string>)
    ensures |args| == |msgs| + 1
    ensures args[0] == Tag(evt)
    ensures forall i :: 0 <= i < |msgs| ==> args[i + 1] == msgs[i]
  {
    args := [];
    args := args + [Tag(evt)];
    args := args + msgs;
  }

  /** `Exec` on either executor. The command hook runs its program once with
      the tag and the messages; whatever the run replies (a failure is only
      logged) nothing is returned and nothing else happens. The no-op hook
      runs nothing. */
  method Exec(h: HookExecutor, sh: Shell, evt: HookEvent, msgs: seq<string>)
    modifies sh
    ensures h.Noop? ==> unchanged(sh)
    ensures h.CommandHook? ==> sh.trace == old(sh.trace) + [[h.path, Tag(evt)] + msgs]
  {
    if h.CommandHook? {
      var args := HookArgs(evt, msgs);
      assert args == [Tag(evt)] + msgs;
      assert [h.path] + args == [h.path, Tag(evt)] + msgs;
      var failure := sh.Run([h.path] + args);
    }
  }
}
