/** The command table builder (distro.go, `getOSCommands`): which family of
    account tools an OS identity selects, and the command lines each of the
    seven account operations runs on that family. */
module Distro {
  import opened Wrappers
  import opened GoStrings
  import opened Process

  /** The three command tables the source defines. */
  datatype Family = CentOS | Debian | Flatcar

  /** The account operations of a table, with their arguments. */
  datatype Operation =
    | AddUser(username: string, home: string)
    | DelUser(username: string)
    | ChangeShell(username: string, shell: string)
    | ChangePassword(username: string, password: string)
    | ChangeHomeDir(username: string, home: string)
    | ChangeGroups(username: string, groups: string)
    | ChangeComment(username: string, comment: string)

  const CentOSIds: seq<string> := ["centos:7", "centos:7.4", "centos:7.5", "centos:7.6"]
  const DebianIds: seq<string> :=
    ["debian", "debian:8", "debian:9", "debian:10", "debian:11", "debian:12",
     "ubuntu:16.04", "ubuntu:18.04", "ubuntu:18.10", "ubuntu:19.04"]

  /** `getOSCommands`: the table for an identity, or `None` where the source
      stops the process with `log.Fatalf`. */
  function GetOSCommands(flavour: string): Option<Family> {
    var f := ToLower(flavour);
    if f in CentOSIds then Some(CentOS)
    else if f in DebianIds then Some(Debian)
    else if HasPrefix(f, "flatcar") || HasPrefix(f, "flatcar:3510.3") then Some(Flatcar)
    else None
  }

  /** The registry, read as sets: exactly the listed identities select CentOS
      and Debian, any other identity starting with `flatcar` selects Flatcar,
      and every other identity is refused. */
  lemma Registry(flavour: string)
    ensures GetOSCommands(flavour) == Some(CentOS) <==> ToLower(flavour) in CentOSIds
    ensures GetOSCommands(flavour) == Some(Debian) <==> ToLower(flavour) in DebianIds
    ensures GetOSCommands(flavour) == Some(Flatcar) <==> HasPrefix(ToLower(flavour), "flatcar")
    ensures GetOSCommands(flavour) == None <==>
      ToLower(flavour) !in CentOSIds && ToLower(flavour) !in DebianIds && !HasPrefix(ToLower(flavour), "flatcar")
  {
    var f := ToLower(flavour);
    if HasPrefix(f, "flatcar:3510.3") {
      HasPrefixOfPrefix(f, "flatcar:3510.3", "flatcar");
    }
    if HasPrefix(f, "flatcar") {
      assert f[0] == "flatcar"[0] == 'f';
    }
  }

  /** The second Flatcar case of the switch can never decide anything: every
      identity it accepts the first case accepts already. */
  lemma FlatcarVersionCaseRedundant(f: string)
    ensures HasPrefix(f, "flatcar:3510.3") ==> HasPrefix(f, "flatcar")
  {
  }

  /** Selection ignores ASCII case. */
  lemma CaseInsensitive(flavour: string)
    ensures GetOSCommands(flavour) == GetOSCommands(ToLower(flavour))
  {
    ToLowerIdempotent(flavour);
  }

  /** Identities outside the registry are refused, e.g. an unlisted CentOS
      release or an unreadable identity. */
  lemma UnknownRefused()
    ensures GetOSCommands("centos:8") == None
    ensures GetOSCommands("") == None
  {
    ToLowerOfLower("centos:8");
    assert !HasPrefix("centos:8", "flatcar") by {
      assert "centos:8"[0] != "flatcar"[0];
    }
  }

  /** Upper-case letters in the identity do not matter. */
  lemma MixedCaseExample()
    ensures GetOSCommands("CentOS:7") == Some(CentOS)
    ensures GetOSCommands("Flatcar:3510.3.2") == Some(Flatcar)
  {
    assert ToLower("CentOS:7") == "centos:7";
    assert ToLower("Flatcar:3510.3.2") == "flatcar:3510.3.2";
    assert "flatcar:3510.3.2"[..7] == "flatcar";
  }

  /** Debian and Ubuntu releases share one table. */
  lemma DebianUbuntuShared()
    ensures GetOSCommands("debian:11") == Some(Debian)
    ensures GetOSCommands("ubuntu:18.04") == Some(Debian)
  {
    SelectsDebian("debian:11");
    SelectsDebian("ubuntu:18.04");
  }

  lemma SelectsDebian(f: string)
    requires f in DebianIds
    ensures GetOSCommands(f) == Some(Debian)
  {
    assert ToLower(f) == f by { ToLowerOfLower(f); }
    assert f !in CentOSIds;
  }

  /** The command line of an operation's main step (for `DelUser`, the
      deletion itself). */
  function CommandArgv(f: Family, op: Operation): Argv {
    match op
    case AddUser(u, h) =>
      (match f
       case CentOS => ["adduser", "-m", "--home-dir", h, u]
       case Debian => ["adduser", "--home", h, "--disabled-password", u]
       case Flatcar => ["useradd", "-m", "--home-dir", h, u])
    case DelUser(u) =>
      (match f
       case Debian => ["deluser", "--remove-home", u]
       case _ => ["userdel", "--remove", "-f", u])
    case ChangeShell(u, sh) => ["usermod", "--shell", sh, u]
    case ChangePassword(u, p) => ["usermod", "--password", p, u]
    case ChangeHomeDir(u, h) => ["usermod", "--move-home", "--home", h, u]
    case ChangeGroups(u, g) => ["usermod", "--groups", g, u]
    case ChangeComment(u, c) => ["usermod", "--comment", c, u]
  }

  predicate IsUsermod(op: Operation) {
    op.ChangeShell? || op.ChangePassword? || op.ChangeHomeDir? || op.ChangeGroups? || op.ChangeComment?
  }

  /** Every command line names a program and ends with the account it acts on. */
  lemma UsernameLast(f: Family, op: Operation)
    ensures |CommandArgv(f, op)| >= 3
    ensures CommandArgv(f, op)[|CommandArgv(f, op)| - 1] == op.username
  {
  }

  /** The five modifications run the same `usermod` line in all three
      families. */
  lemma UsermodShared(f: Family, g: Family, op: Operation)
    requires IsUsermod(op)
    ensures CommandArgv(f, op) == CommandArgv(g, op)
    ensures CommandArgv(f, op)[0] == "usermod"
  {
  }

  /** CentOS and Flatcar delete with `userdel`, Debian with `deluser`. */
  lemma DeleteCommands(u: string)
    ensures CommandArgv(CentOS, DelUser(u)) == CommandArgv(Flatcar, DelUser(u)) == ["userdel", "--remove", "-f", u]
    ensures CommandArgv(Debian, DelUser(u)) == ["deluser", "--remove-home", u]
  {
  }

  /** The account-creation line differs in each family. */
  lemma AddCommandsDiffer(u: string, h: string)
    ensures CommandArgv(CentOS, AddUser(u, h)) != CommandArgv(Debian, AddUser(u, h))
    ensures CommandArgv(CentOS, AddUser(u, h)) != CommandArgv(Flatcar, AddUser(u, h))
    ensures CommandArgv(Debian, AddUser(u, h)) != CommandArgv(Flatcar, AddUser(u, h))
  {
  }

  /** Within one family, different operations never run the same line: the
      command line determines the operation and all its arguments. */
  lemma CommandDeterminesOperation(f: Family, op1: Operation, op2: Operation)
    requires CommandArgv(f, op1) == CommandArgv(f, op2)
    ensures op1 == op2
  {
  }

  function PgrepArgv(u: string): Argv { ["pgrep", "-l", "-u", u] }
  function PkillArgv(u: string): Argv { ["pkill", "--signal", "9", "-e", "-u", u] }

  /** The command lines `delUser` runs, given what `pgrep` printed: the
      process list, a kill only when that list is not blank, then the
      deletion. */
  function DelUserPlan(f: Family, u: string, processList: string): seq<Argv> {
    [PgrepArgv(u)]
    + (if TrimSpace(processList) != "" then [PkillArgv(u)] else [])
    + [CommandArgv(f, DelUser(u))]
  }

  /** The deletion is always issued, and always last; the kill is issued
      exactly when `pgrep` printed something other than white space, and
      always between the two. */
  lemma DelUserPlanShape(f: Family, u: string, processList: string)
    ensures DelUserPlan(f, u, processList)[0] == PgrepArgv(u)
    ensures Last(DelUserPlan(f, u, processList)) == CommandArgv(f, DelUser(u))
    ensures PkillArgv(u) in DelUserPlan(f, u, processList) <==> !AllSpace(processList)
    ensures |DelUserPlan(f, u, processList)| == if AllSpace(processList) then 2 else 3
    ensures !AllSpace(processList) ==> DelUserPlan(f, u, processList)[1] == PkillArgv(u)
  {
    TrimSpaceEmpty(processList);
    var plan := DelUserPlan(f, u, processList);
    assert PgrepArgv(u) != PkillArgv(u) by { assert |PgrepArgv(u)| != |PkillArgv(u)|; }
    assert CommandArgv(f, DelUser(u)) != PkillArgv(u) by {
      assert CommandArgv(f, DelUser(u))[0] != PkillArgv(u)[0];
    }
  }

  function Last(s: seq<Argv>): Argv
    requires s != []
  {
    s[|s| - 1]
  }

  /** Every command line an operation runs, given what `pgrep` would print. */
  function Plan(f: Family, op: Operation, processList: string): seq<Argv> {
    if op.DelUser? then DelUserPlan(f, op.username, processList) else [CommandArgv(f, op)]
  }

  /** Runs one operation of the table for family `f`: the closures of
      `getOSCommands`. What the operation returns is the reply to its last
      command; the replies to `pgrep` and `pkill` are only looked at (or
      logged) and never returned. */
  method Perform(sh: Shell, f: Family, op: Operation) returns (reply: Reply)
    modifies sh
    ensures sh.trace == old(sh.trace) + Plan(f, op, sh.respond(old(sh.trace), PgrepArgv(op.username)).output)
    ensures sh.trace != [] && reply == sh.respond(sh.trace[..|sh.trace| - 1], Last(sh.trace))
  {
    if op.DelUser? {
      var u := op.username;
      ghost var start := sh.trace;
      var processList := sh.Run(PgrepArgv(u));
      if TrimSpace(processList.output) != "" {
        var killed := sh.Run(PkillArgv(u));
      }
      ghost var before := sh.trace;
      reply := sh.Run(CommandArgv(f, op));
      assert sh.trace[..|sh.trace| - 1] == before;
    } else {
      ghost var before := sh.trace;
      reply := sh.Run(CommandArgv(f, op));
      assert sh.trace[..|sh.trace| - 1] == before;
    }
  }
}
