/** What each operation of salt/modules/win_useradd.py does to the command
    history, as a function of that history: the commands it issues, in order,
    and the value it returns or the exception it raises.

    The commands are run by an executor the module cannot see. It is modelled
    as an arbitrary function from the history of commands already issued and
    the next command to that command's reply, so that nothing here assumes a
    command changes, or leaves unchanged, the accounts of the machine. */
module UserSpec {
  import opened PyStr
  import opened StrOrder
  import opened NetOutput

  /** The `net user` / `net localgroup` invocations the module issues. */
  datatype Command =
    | UserAdd(name: string)                          // net user <name> /add
    | UserDelete(name: string)                       // net user <name> /delete
    | SetUserPassword(name: string, password: string)    // net user <name> <password>
    | LocalGroupAdd(group: string, user: string)     // net localgroup <group> <user> /add
    | LocalGroupDelete(group: string, user: string)  // net localgroup <group> <user> /delete
    | SetHome(user: string, path: string)            // net user <user> /homedir:<path>
    | SetProfile(user: string, path: string)         // net user <user> /profilepath:<path>
    | SetFullName(user: string, fullname: string)    // net user <user> /fullname:"<fullname>"
    | UserQuery(name: string)                        // net user <name>
    | UserList                                       // net user

  /** What running a command gives back: its exit status and its standard output. */
  datatype Reply = Reply(retcode: int, output: string)

  /** The reply of each command, given every command issued before it. */
  type Executor = (seq<Command>, Command) -> Reply

  /** What the module relies on and cannot see: the executor, the reader of the
      detail view (`NetOutput.InfoOf` for the module itself) and the foreign
      `file.user_to_uid` lookup. */
  datatype Host = Host(exec: Executor, parse: string -> InfoResult, uidOf: string -> string)

  /** The Python exceptions the module lets escape. */
  datatype PyError = KeyError(key: string) | TypeError

  /** A Python call either returns a value or raises. */
  datatype Outcome<T> = Ok(value: T) | Raised(error: PyError)

  /** One call of an operation: what it returns and the commands it issues. */
  datatype Trace<T> = Trace(result: Outcome<T>, issued: seq<Command>)

  /** The record `getent` lists for one account. */
  datatype Entry = Entry(
    gid: string,
    groups: seq<string>,
    home: string,
    name: string,
    passwd: string,
    shell: string,
    uid: string)

  /** The account attributes `chhome`, `chprofile` and `chfullname` change. */
  datatype Field = Home | Profile | FullName

  /** The `groups` argument of `chgroups`: a comma-separated string or a list. */
  datatype Groups = Str(s: string) | List(gs: seq<string>)

  // ==================================================================
  // Commands and reads
  // ==================================================================

  /** The commands that only read: the two views of `net user`. */
  predicate IsRead(c: Command) {
    c.UserQuery? || c.UserList?
  }

  /** The commands of `cmds` that may change the machine, in order. */
  function Changes(cmds: seq<Command>): seq<Command>
    decreases |cmds|
  {
    if cmds == [] then []
    else (if IsRead(cmds[0]) then [] else [cmds[0]]) + Changes(cmds[1..])
  }

  lemma {:induction false} ChangesAppend(a: seq<Command>, b: seq<Command>)
    ensures Changes(a + b) == Changes(a) + Changes(b)
    decreases |a|
  {
    if a == [] {
      assert a + b == b;
    } else {
      assert (a + b)[1..] == a[1..] + b;
      ChangesAppend(a[1..], b);
    }
  }

  lemma ChangesOne(c: Command)
    ensures Changes([c]) == if IsRead(c) then [] else [c]
  {
    assert [c][1..] == [];
  }

  /** `Changes` keeps exactly the commands that are not reads. */
  lemma {:induction false} ChangesMembers(cmds: seq<Command>, c: Command)
    ensures c in Changes(cmds) <==> c in cmds && !IsRead(c)
    decreases |cmds|
  {
    if cmds != [] {
      ChangesMembers(cmds[1..], c);
      assert cmds == [cmds[0]] + cmds[1..];
    }
  }

  /** Regrouping a concatenation of histories, proved once here rather than inside
      the large contexts of the methods that need it. */
  lemma ConcatAssoc(a: seq<Command>, b: seq<Command>, c: seq<Command>)
    ensures a + (b + c) == (a + b) + c
  {
  }

  /** What `info(name)` gives after the history `h`. */
  function QueryAt(host: Host, h: seq<Command>, name: string): InfoResult {
    host.parse(host.exec(h, UserQuery(name)).output)
  }

  /** What `list_groups(name)` gives after the history `h`. */
  function ListGroupsAt(host: Host, h: seq<Command>, name: string): Option<seq<string>> {
    ListGroupsOf(QueryAt(host, h, name))
  }

  /** `not ret['retcode']`: success is a zero exit status. */
  predicate Succeeded(r: Reply) {
    r.retcode == 0
  }

  // ==================================================================
  // addgroup, removegroup (lines 75-110)
  // ==================================================================

  /** `addgroup(name, group)` after the history `h`. */
  function AddGroupOf(host: Host, h: seq<Command>, name: string, group: string): (t: Trace<bool>)
    ensures t.issued != [] && t.issued[0] == UserQuery(name)
    ensures QueryAt(host, h, name).NotFound? ==> t.result == Ok(false) && Changes(t.issued) == []
    ensures QueryAt(host, h, name).MissingLabel? ==>
              t.result == Raised(KeyError(QueryAt(host, h, name).key)) && Changes(t.issued) == []
    ensures QueryAt(host, h, name).Found? && group in QueryAt(host, h, name).user.groups ==>
              t.result == Ok(true) && Changes(t.issued) == []
    ensures QueryAt(host, h, name).Found? && group !in QueryAt(host, h, name).user.groups ==>
              && Changes(t.issued) == [LocalGroupAdd(group, name)]
              && t.issued == [UserQuery(name), LocalGroupAdd(group, name)]
              && t.result == Ok(Succeeded(host.exec(h + [UserQuery(name)], LocalGroupAdd(group, name))))
  {
    var q := UserQuery(name);
    match QueryAt(host, h, name)
    case NotFound => Trace(Ok(false), [q])
    case MissingLabel(k) => Trace(Raised(KeyError(k)), [q])
    case Found(user) =>
      if group in user.groups then Trace(Ok(true), [q])
      else
        var c := LocalGroupAdd(group, name);
        ChangesAppend([q], [c]); ChangesOne(q); ChangesOne(c);
        assert [q] + [c] == [q, c];
        Trace(Ok(Succeeded(host.exec(h + [q], c))), [q, c])
  }

  /** `removegroup(name, group)` after the history `h`. */
  function RemoveGroupOf(host: Host, h: seq<Command>, name: string, group: string): (t: Trace<bool>)
    ensures t.issued != [] && t.issued[0] == UserQuery(name)
    ensures QueryAt(host, h, name).NotFound? ==> t.result == Ok(false) && Changes(t.issued) == []
    ensures QueryAt(host, h, name).MissingLabel? ==>
              t.result == Raised(KeyError(QueryAt(host, h, name).key)) && Changes(t.issued) == []
    ensures QueryAt(host, h, name).Found? && group !in QueryAt(host, h, name).user.groups ==>
              t.result == Ok(true) && Changes(t.issued) == []
    ensures QueryAt(host, h, name).Found? && group in QueryAt(host, h, name).user.groups ==>
              && Changes(t.issued) == [LocalGroupDelete(group, name)]
              && t.issued == [UserQuery(name), LocalGroupDelete(group, name)]
              && t.result == Ok(Succeeded(host.exec(h + [UserQuery(name)], LocalGroupDelete(group, name))))
  {
    var q := UserQuery(name);
    match QueryAt(host, h, name)
    case NotFound => Trace(Ok(false), [q])
    case MissingLabel(k) => Trace(Raised(KeyError(k)), [q])
    case Found(user) =>
      if group !in user.groups then Trace(Ok(true), [q])
      else
        var c := LocalGroupDelete(group, name);
        ChangesAppend([q], [c]); ChangesOne(q); ChangesOne(c);
        assert [q] + [c] == [q, c];
        Trace(Ok(Succeeded(host.exec(h + [q], c))), [q, c])
  }

  // ==================================================================
  // chhome, chprofile, chfullname (lines 113-172)
  // ==================================================================

  /** The value of `field` in the record of `info`. */
  function FieldOf(u: UserInfo, field: Field): string {
    match field
    case Home => u.home
    case Profile => u.profile
    case FullName => u.fullname
  }

  /** The key of `field` in the dict `info` returns. */
  function FieldKey(field: Field): string {
    match field
    case Home => "home"
    case Profile => "profile"
    case FullName => "fullname"
  }

  /** The command that sets `field` of account `name` to `value`. */
  function SetCommand(field: Field, name: string, value: string): (c: Command)
    ensures !IsRead(c)
  {
    match field
    case Home => SetHome(name, value)
    case Profile => SetProfile(name, value)
    case FullName => SetFullName(name, value)
  }

  /** Lines 129-131: the verdict from the value before, the value re-read after and the
      value asked for. Since the command is only issued when the value asked for differs
      from the one before, the verdict is whether the re-read value is the one asked for. */
  function Decide(pre: string, post: string, value: string): (b: bool)
    ensures value != pre ==> (b <==> post == value)
  {
    if post != pre then post == value else false
  }

  /** `chhome`, `chprofile` or `chfullname` of account `name` after the history `h`. */
  function ChangeFieldOf(host: Host, h: seq<Command>, name: string, field: Field, value: string): (t: Trace<bool>)
    ensures t.issued != [] && t.issued[0] == UserQuery(name)
    ensures QueryAt(host, h, name).NotFound? ==> t.result == Ok(false) && Changes(t.issued) == []
    ensures QueryAt(host, h, name).MissingLabel? ==>
              t.result == Raised(KeyError(QueryAt(host, h, name).key)) && Changes(t.issued) == []
    ensures QueryAt(host, h, name).Found? && FieldOf(QueryAt(host, h, name).user, field) == value ==>
              t.result == Ok(true) && Changes(t.issued) == []
    ensures QueryAt(host, h, name).Found? && FieldOf(QueryAt(host, h, name).user, field) != value ==>
              var change := SetCommand(field, name, value);
              var post := QueryAt(host, h + [UserQuery(name), change], name);
              && t.issued == [UserQuery(name), change, UserQuery(name)]
              && Changes(t.issued) == [change]
              && (post.NotFound? ==> t.result == Raised(KeyError(FieldKey(field))))
              && (post.MissingLabel? ==> t.result == Raised(KeyError(post.key)))
              && (post.Found? ==> t.result == Ok(FieldOf(post.user, field) == value))
  {
    var q := UserQuery(name);
    match QueryAt(host, h, name)
    case NotFound => Trace(Ok(false), [q])
    case MissingLabel(k) => Trace(Raised(KeyError(k)), [q])
    case Found(pre) =>
      if value == FieldOf(pre, field) then Trace(Ok(true), [q])
      else
        var c := SetCommand(field, name, value);
        ChangesAppend([q, c], [q]); ChangesAppend([q], [c]); ChangesOne(q); ChangesOne(c);
        assert [q] + [c] == [q, c] && [q, c] + [q] == [q, c, q];
        var issued := [q, c, q];
        match QueryAt(host, h + [q, c], name)
        case NotFound => Trace(Raised(KeyError(FieldKey(field))), issued)
        case MissingLabel(k) => Trace(Raised(KeyError(k)), issued)
        case Found(post) => Trace(Ok(Decide(FieldOf(pre, field), FieldOf(post, field), value)), issued)
  }

  // ==================================================================
  // chgroups (lines 175-197)
  // ==================================================================

  /** The groups `chgroups` is asked for: a string is split on commas (line 185). */
  function Requested(groups: Groups): seq<string> {
    match groups
    case Str(s) => Split(s, ",")
    case List(gs) => gs
  }

  /** Python's `set(xs)`. */
  function Elems(xs: seq<string>): set<string> {
    set x | x in xs
  }

  /** One `/add` of account `name` per group of `gs`, in order. */
  function Adds(gs: seq<string>, name: string): (r: seq<Command>)
    ensures |r| == |gs| && forall i :: 0 <= i < |gs| ==> r[i] == LocalGroupAdd(gs[i], name)
    decreases |gs|
  {
    if gs == [] then [] else [LocalGroupAdd(gs[0], name)] + Adds(gs[1..], name)
  }

  /** One `/delete` of account `name` per group of `gs`, in order. */
  function Deletes(gs: seq<string>, name: string): (r: seq<Command>)
    ensures |r| == |gs| && forall i :: 0 <= i < |gs| ==> r[i] == LocalGroupDelete(gs[i], name)
    decreases |gs|
  {
    if gs == [] then [] else [LocalGroupDelete(gs[0], name)] + Deletes(gs[1..], name)
  }

  /** Commands none of which is a read are all kept by `Changes`. */
  lemma {:induction false} ChangesOfWrites(cmds: seq<Command>)
    requires forall i :: 0 <= i < |cmds| ==> !IsRead(cmds[i])
    ensures Changes(cmds) == cmds
    decreases |cmds|
  {
    if cmds != [] {
      ChangesOfWrites(cmds[1..]);
      assert cmds == [cmds[0]] + cmds[1..];
    }
  }

  /** The commands `chgroups` issues after its first read, when that read found the
      account and the groups differ: `None` when the teardown read fails. */
  function Teardown(host: Host, h1: seq<Command>, name: string, append: bool): Option<seq<Command>> {
    if append then Some([])
    else
      match ListGroupsAt(host, h1, name)
      case None => None
      case Some(cur) => Some([UserQuery(name)] + Deletes(cur, name))
  }

  /** `chgroups(name, groups, append)` after the history `h`. A failed read of the
      groups gives `False`, on which `set()` or iteration raises TypeError. */
  function ChGroupsOf(host: Host, h: seq<Command>, name: string, groups: Groups, append: bool): Trace<bool> {
    var q := UserQuery(name);
    var req := Requested(groups);
    match ListGroupsAt(host, h, name)
    case None => Trace(Raised(TypeError), [q])
    case Some(ugrps) =>
      if Elems(ugrps) == Elems(req) then Trace(Ok(true), [q])
      else
        match Teardown(host, h + [q], name, append)
        case None => Trace(Raised(TypeError), [q, q])
        case Some(td) =>
          var pre := [q] + td + Adds(req, name);
          var agrps := ListGroupsAt(host, h + pre, name);
          var issued := pre + [q];
          if agrps.None? then Trace(Raised(TypeError), issued)
          else Trace(Ok(|Elems(ugrps) - Elems(agrps.value)| == 0), issued)
  }

  /** When the account's groups already are the groups asked for, `chgroups` returns
      True and changes nothing. */
  lemma ChGroupsSatisfied(host: Host, h: seq<Command>, name: string, groups: Groups, append: bool)
    requires ListGroupsAt(host, h, name).Some?
    requires Elems(ListGroupsAt(host, h, name).value) == Elems(Requested(groups))
    ensures ChGroupsOf(host, h, name, groups, append) == Trace(Ok(true), [UserQuery(name)])
    ensures Changes(ChGroupsOf(host, h, name, groups, append).issued) == []
  {
  }

  /** Once the groups differ and the teardown read succeeds, the changing commands
      `chgroups` issues are those of the teardown, then one `/add` per group asked for,
      in order. */
  lemma ChGroupsIssued(host: Host, h: seq<Command>, name: string, groups: Groups, append: bool)
    requires ListGroupsAt(host, h, name).Some?
    requires Elems(ListGroupsAt(host, h, name).value) != Elems(Requested(groups))
    requires Teardown(host, h + [UserQuery(name)], name, append).Some?
    ensures Changes(ChGroupsOf(host, h, name, groups, append).issued)
            == Changes(Teardown(host, h + [UserQuery(name)], name, append).value) + Adds(Requested(groups), name)
  {
    var q := UserQuery(name);
    var req := Requested(groups);
    var td := Teardown(host, h + [q], name, append).value;
    assert ChGroupsOf(host, h, name, groups, append).issued == [q] + td + Adds(req, name) + [q];
    ChangesOfWrites(Adds(req, name));
    ChangesAroundReads(q, td, Adds(req, name));
  }

  /** Reads around a run of commands add no changes. */
  lemma ChangesAroundReads(q: Command, mid: seq<Command>, writes: seq<Command>)
    requires IsRead(q) && Changes(writes) == writes
    ensures Changes([q] + mid + writes + [q]) == Changes(mid) + writes
  {
    ChangesOne(q);
    ChangesAppend([q] + mid + writes, [q]);
    ChangesAppend([q] + mid, writes);
    ChangesAppend([q], mid);
  }

  /** With `append`, once the groups differ `chgroups` issues exactly one `/add` per
      group asked for, in order, and no `/delete`. */
  lemma ChGroupsAppend(host: Host, h: seq<Command>, name: string, groups: Groups)
    requires ListGroupsAt(host, h, name).Some?
    requires Elems(ListGroupsAt(host, h, name).value) != Elems(Requested(groups))
    ensures Changes(ChGroupsOf(host, h, name, groups, true).issued) == Adds(Requested(groups), name)
    ensures forall c :: c in ChGroupsOf(host, h, name, groups, true).issued ==> !c.LocalGroupDelete?
  {
    ChGroupsIssued(host, h, name, groups, true);
    assert Changes([]) == [];
    var t := ChGroupsOf(host, h, name, groups, true);
    forall c | c in t.issued ensures !c.LocalGroupDelete? {
      ChangesMembers(t.issued, c);
    }
  }

  /** Without `append`, once the groups differ `chgroups` issues one `/delete` per group
      the second read lists, then one `/add` per group asked for, in order. */
  lemma ChGroupsReplace(host: Host, h: seq<Command>, name: string, groups: Groups)
    requires ListGroupsAt(host, h, name).Some?
    requires Elems(ListGroupsAt(host, h, name).value) != Elems(Requested(groups))
    requires ListGroupsAt(host, h + [UserQuery(name)], name).Some?
    ensures Changes(ChGroupsOf(host, h, name, groups, false).issued)
            == Deletes(ListGroupsAt(host, h + [UserQuery(name)], name).value, name) + Adds(Requested(groups), name)
  {
    var q := UserQuery(name);
    ChGroupsIssued(host, h, name, groups, false);
    var cur := ListGroupsAt(host, h + [q], name).value;
    ChangesOfWrites(Deletes(cur, name));
    ChangesAfterRead(q, Deletes(cur, name));
  }

  /** A read in front of a run of changes adds no change. */
  lemma ChangesAfterRead(q: Command, writes: seq<Command>)
    requires IsRead(q) && Changes(writes) == writes
    ensures Changes([q] + writes) == writes
  {
    ChangesOne(q);
    ChangesAppend([q], writes);
  }

  /** Lines 196-197: the verdict is whether every group held before the call is
      still held after it, whatever the groups asked for. */
  lemma ChGroupsVerdict(host: Host, h: seq<Command>, name: string, groups: Groups, append: bool)
    requires ListGroupsAt(host, h, name).Some?
    requires Elems(ListGroupsAt(host, h, name).value) != Elems(Requested(groups))
    requires ChGroupsOf(host, h, name, groups, append).result.Ok?
    ensures var t := ChGroupsOf(host, h, name, groups, append);
            var after := ListGroupsAt(host, h + t.issued[..|t.issued| - 1], name);
            && after.Some?
            && (t.result.value <==> forall g :: g in ListGroupsAt(host, h, name).value ==> g in after.value)
  {
    var q := UserQuery(name);
    var req := Requested(groups);
    var t := ChGroupsOf(host, h, name, groups, append);
    var td := Teardown(host, h + [q], name, append).value;
    var pre := [q] + td + Adds(req, name);
    assert t.issued[..|t.issued| - 1] == pre;
    var ug := ListGroupsAt(host, h, name).value;
    var ag := ListGroupsAt(host, h + pre, name).value;
    assert t.result.value == (|Elems(ug) - Elems(ag)| == 0);
    if forall g :: g in ug ==> g in ag {
      assert Elems(ug) - Elems(ag) == {};
    } else {
      var g :| g in ug && g !in ag;
      assert g in Elems(ug) - Elems(ag);
    }
  }

  /** When the first `list_groups` gives False (no account, or a label missing from its
      record), `chgroups` raises TypeError after that single read. */
  lemma ChGroupsTypeError(host: Host, h: seq<Command>, name: string, groups: Groups, append: bool)
    requires ListGroupsAt(host, h, name).None?
    ensures ChGroupsOf(host, h, name, groups, append) == Trace(Raised(TypeError), [UserQuery(name)])
  {
  }

  /** Without `append`, when the second `list_groups` (the one the teardown iterates)
      gives False, `chgroups` raises TypeError after the two reads, having changed
      nothing. */
  lemma ChGroupsTeardownTypeError(host: Host, h: seq<Command>, name: string, groups: Groups)
    requires ListGroupsAt(host, h, name).Some?
    requires Elems(ListGroupsAt(host, h, name).value) != Elems(Requested(groups))
    requires ListGroupsAt(host, h + [UserQuery(name)], name).None?
    ensures ChGroupsOf(host, h, name, groups, false) == Trace(Raised(TypeError), [UserQuery(name), UserQuery(name)])
    ensures Changes(ChGroupsOf(host, h, name, groups, false).issued) == []
  {
    ChangesAppend([UserQuery(name)], [UserQuery(name)]);
    ChangesOne(UserQuery(name));
    assert [UserQuery(name)] + [UserQuery(name)] == [UserQuery(name), UserQuery(name)];
  }

  /** The `KeyError` of `info` never escapes `chgroups`: `list_groups` turns it into
      False, so the only exception `chgroups` raises is TypeError. */
  lemma ChGroupsOnlyTypeError(host: Host, h: seq<Command>, name: string, groups: Groups, append: bool)
    ensures ChGroupsOf(host, h, name, groups, append).result.Raised? ==>
              ChGroupsOf(host, h, name, groups, append).result.error == TypeError
  {
  }

  // ==================================================================
  // getent (lines 259-303)
  // ==================================================================

  /** Lines 289-300: the entry for one account from its `info`; an empty record has no
      'name' (KeyError) and a missing label propagates. */
  function EntryOf(uidOf: string -> string, ir: InfoResult): (r: Outcome<Entry>)
    ensures r.Ok? <==> ir.Found?
    ensures ir.NotFound? ==> r == Raised(KeyError("name"))
    ensures ir.MissingLabel? ==> r == Raised(KeyError(ir.key))
  {
    match ir
    case NotFound => Raised(KeyError("name"))
    case MissingLabel(k) => Raised(KeyError(k))
    case Found(u) =>
      Ok(Entry(gid := "", groups := u.groups, home := u.home, name := u.name,
               passwd := "", shell := "", uid := uidOf(u.name)))
  }

  /** One `net user <name>` per name, in order. */
  function Queries(names: seq<string>): (r: seq<Command>)
    ensures |r| == |names| && forall i :: 0 <= i < |names| ==> r[i] == UserQuery(names[i])
    decreases |names|
  {
    if names == [] then [] else Queries(names[..|names| - 1]) + [UserQuery(names[|names| - 1])]
  }

  /** Lines 287-300: the entries of the accounts `names`, each looked up after the
      lookups of those before it; the first failed lookup ends the call. */
  function EntriesOf(host: Host, h: seq<Command>, names: seq<string>): Trace<seq<Entry>>
    decreases |names|
  {
    if names == [] then Trace(Ok([]), [])
    else
      var init := EntriesOf(host, h, names[..|names| - 1]);
      if init.result.Raised? then init
      else
        var n := names[|names| - 1];
        var e := EntryOf(host.uidOf, QueryAt(host, h + init.issued, n));
        Trace(if e.Raised? then Raised(e.error) else Ok(init.result.value + [e.value]),
              init.issued + [UserQuery(n)])
  }

  /** One more name, after lookups that all succeeded: its lookup follows theirs, and
      its entry is appended or its error raised. */
  lemma EntriesStep(host: Host, h: seq<Command>, names: seq<string>, i: nat, v: seq<Entry>)
    requires i < |names| && EntriesOf(host, h, names[..i]) == Trace(Ok(v), Queries(names[..i]))
    ensures Queries(names[..i + 1]) == Queries(names[..i]) + [UserQuery(names[i])]
    ensures var e := EntryOf(host.uidOf, QueryAt(host, h + Queries(names[..i]), names[i]));
            EntriesOf(host, h, names[..i + 1])
            == Trace(if e.Raised? then Raised(e.error) else Ok(v + [e.value]), Queries(names[..i + 1]))
  {
    assert names[..i + 1][..i] == names[..i];
  }

  /** `e` is the entry listed for the account read as `ir`. */
  predicate EntryFor(uidOf: string -> string, ir: InfoResult, e: Entry) {
    && ir.Found?
    && e.name == ir.user.name && e.home == ir.user.home && e.groups == ir.user.groups
    && e.gid == "" && e.passwd == "" && e.shell == ""
    && e.uid == uidOf(ir.user.name)
  }

  /** The lookups issued are those of a prefix of the names, all of them, with one
      entry per name, when no lookup failed. */
  lemma {:induction false} EntriesIssued(host: Host, h: seq<Command>, names: seq<string>)
    ensures var t := EntriesOf(host, h, names);
            |t.issued| <= |names| && t.issued == Queries(names[..|t.issued|])
    ensures var t := EntriesOf(host, h, names);
            t.result.Ok? ==> |t.issued| == |names| && |t.result.value| == |names|
    decreases |names|
  {
    if names != [] {
      var m := |names| - 1;
      var init := EntriesOf(host, h, names[..m]);
      EntriesIssued(host, h, names[..m]);
      assert names[..m][..|init.issued|] == names[..|init.issued|];
      if init.result.Ok? {
        assert names[..m + 1][..m] == names[..m];
        assert names[..m + 1] == names;
      }
    }
  }

  /** The entry of the `k`-th name is that of its lookup, made after the lookups of
      the names before it. */
  lemma EntriesRecordAt(host: Host, h: seq<Command>, names: seq<string>, k: nat)
    requires k < |names| && EntriesOf(host, h, names[..k + 1]).result.Ok?
    ensures var v := EntriesOf(host, h, names[..k + 1]).result.value;
            |v| == k + 1 && EntryFor(host.uidOf, QueryAt(host, h + Queries(names[..k]), names[k]), v[k])
  {
    var ns := names[..k + 1];
    assert ns[..k] == names[..k] && ns[k] == names[k];
    EntriesIssued(host, h, names[..k]);
    assert names[..k][..k] == names[..k];
  }

  /** A successful call lists, for each prefix of the names, the entries of that prefix. */
  lemma {:induction false} EntriesPrefix(host: Host, h: seq<Command>, names: seq<string>, k: nat)
    requires k <= |names| && EntriesOf(host, h, names).result.Ok?
    ensures EntriesOf(host, h, names[..k]).result.Ok?
    ensures var v := EntriesOf(host, h, names).result.value;
            k <= |v| && EntriesOf(host, h, names[..k]).result.value == v[..k]
    decreases |names| - k
  {
    EntriesIssued(host, h, names);
    if k == |names| {
      assert names[..k] == names;
    } else {
      var m := |names| - 1;
      var init := EntriesOf(host, h, names[..m]);
      EntriesIssued(host, h, names[..m]);
      assert names[..m][..k] == names[..k];
      EntriesPrefix(host, h, names[..m], k);
    }
  }

  /** When the lookups fail, the last one issued is the one that failed: it found no
      account (KeyError 'name') or lacked a label, and the lookups before it all
      succeeded. */
  lemma {:induction false} EntriesFailure(host: Host, h: seq<Command>, names: seq<string>)
    requires EntriesOf(host, h, names).result.Raised?
    ensures var t := EntriesOf(host, h, names);
            var k := |t.issued| - 1;
            && 0 <= k < |names|
            && EntryOf(host.uidOf, QueryAt(host, h + Queries(names[..k]), names[k])) == Raised(t.result.error)
            && EntriesOf(host, h, names[..k]).result.Ok?
    decreases |names|
  {
    var m := |names| - 1;
    if EntriesOf(host, h, names[..m]).result.Raised? {
      EntriesFailure(host, h, names[..m]);
      var k := |EntriesOf(host, h, names[..m]).issued| - 1;
      assert names[..m][k] == names[k] && names[..m][..k] == names[..k];
    } else {
      EntriesFailLast(host, h, names);
    }
  }

  /** The case of `EntriesFailure` where only the last lookup fails. */
  lemma EntriesFailLast(host: Host, h: seq<Command>, names: seq<string>)
    requires names != [] && EntriesOf(host, h, names[..|names| - 1]).result.Ok?
    requires EntriesOf(host, h, names).result.Raised?
    ensures var k := |names| - 1;
            && |EntriesOf(host, h, names).issued| == |names|
            && EntryOf(host.uidOf, QueryAt(host, h + Queries(names[..k]), names[k]))
               == Raised(EntriesOf(host, h, names).result.error)
  {
    var m := |names| - 1;
    EntriesIssued(host, h, names[..m]);
    assert names[..m][..m] == names[..m];
  }

  /** A failed lookup ends the call: nothing after it is looked up. */
  lemma {:induction false} EntriesStopAtError(host: Host, h: seq<Command>, names: seq<string>, k: nat)
    requires k <= |names| && EntriesOf(host, h, names[..k]).result.Raised?
    ensures EntriesOf(host, h, names) == EntriesOf(host, h, names[..k])
    decreases |names| - k
  {
    if k == |names| {
      assert names[..k] == names;
    } else {
      var m := |names| - 1;
      assert names[..m][..k] == names[..k];
      EntriesStopAtError(host, h, names[..m], k);
    }
  }

  /** `getent()` after the history `h`, with the run's cache `cache`. */
  function GetentOf(host: Host, h: seq<Command>, cache: Option<seq<Entry>>): (t: Trace<seq<Entry>>)
    ensures cache.Some? ==> t == Trace(Ok(cache.value), [])
    ensures cache.None? ==> t.issued != [] && t.issued[0] == UserList
  {
    match cache
    case Some(v) => Trace(Ok(v), [])
    case None =>
      var names := UserListOf(host.exec(h, UserList).output);
      var e := EntriesOf(host, h + [UserList], names);
      Trace(e.result, [UserList] + e.issued)
  }

  /** `getent` only reads: it issues no command that could change the machine. */
  lemma GetentOnlyReads(host: Host, h: seq<Command>, cache: Option<seq<Entry>>)
    ensures Changes(GetentOf(host, h, cache).issued) == []
  {
    if cache.None? {
      var names := UserListOf(host.exec(h, UserList).output);
      var e := EntriesOf(host, h + [UserList], names);
      EntriesIssued(host, h + [UserList], names);
      assert ([UserList] + e.issued)[1..] == e.issued;
      NoChangesInQueries(e.issued);
    }
  }

  lemma {:induction false} NoChangesInQueries(cmds: seq<Command>)
    requires forall i :: 0 <= i < |cmds| ==> cmds[i].UserQuery?
    ensures Changes(cmds) == []
    decreases |cmds|
  {
    if cmds != [] {
      NoChangesInQueries(cmds[1..]);
    }
  }

  /** Without a cache, a successful `getent` lists one entry per name of the enumeration
      view, in order, each from the lookup of that name after the lookups before it. */
  lemma GetentEntries(host: Host, h: seq<Command>)
    requires GetentOf(host, h, None).result.Ok?
    ensures var names := UserListOf(host.exec(h, UserList).output);
            var v := GetentOf(host, h, None).result.value;
            && |v| == |names|
            && forall k :: 0 <= k < |names| ==>
                 EntryFor(host.uidOf, QueryAt(host, h + [UserList] + Queries(names[..k]), names[k]), v[k])
  {
    var names := UserListOf(host.exec(h, UserList).output);
    var h1 := h + [UserList];
    var v := GetentOf(host, h, None).result.value;
    EntriesIssued(host, h1, names);
    forall k | 0 <= k < |names|
      ensures EntryFor(host.uidOf, QueryAt(host, h1 + Queries(names[..k]), names[k]), v[k])
    {
      EntriesPrefix(host, h1, names, k + 1);
      EntriesRecordAt(host, h1, names, k);
    }
  }
}
