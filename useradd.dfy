/** The `user` execution module for Windows (salt/modules/win_useradd.py) as an
    object: the commands it has issued during one run and the run's cache of
    `getent`, with one method per function of the module. Every method is
    proved to issue exactly the commands, and to return exactly the value, that
    the trace functions of `UserSpec` give for the history so far. */
module WinUserAdd {
  import opened PyStr
  import opened NetOutput
  import opened UserSpec

  class UserModule {
    /** Runs `net user` / `net localgroup` (the `cmd.run` / `cmd.run_all` helpers). */
    const exec: Executor
    /** The foreign `file.user_to_uid` lookup. */
    const uidOf: string -> string
    /** Every command issued so far, oldest first. */
    var log: seq<Command>
    /** The `user.getent` entry of the run's `__context__`. */
    var context: Option<seq<Entry>>

    constructor (exec: Executor, uidOf: string -> string)
      ensures this.exec == exec && this.uidOf == uidOf
      ensures log == [] && context == None
    {
      this.exec := exec;
      this.uidOf := uidOf;
      log := [];
      context := None;
    }

    /** What the module relies on, its detail-view reader being `info`'s own. */
    function Machine(): Host {
      Host(exec, InfoOf, uidOf)
    }

    /** Runs one command. */
    method Execute(c: Command) returns (reply: Reply)
      modifies this`log
      ensures log == old(log) + [c]
      ensures reply == exec(old(log), c)
    {
      reply := exec(log, c);
      log := log + [c];
    }

    /** Lines 21-43: `net user <name> /add`; the other parameters have no effect. */
    method Add(name: string) returns (ok: bool)
      modifies this`log
      ensures log == old(log) + [UserAdd(name)]
      ensures ok == Succeeded(exec(old(log), UserAdd(name)))
    {
      var ret := Execute(UserAdd(name));
      ok := Succeeded(ret);
    }

    /** Lines 46-58: `net user <name> /delete`. */
    method Delete(name: string) returns (ok: bool)
      modifies this`log
      ensures log == old(log) + [UserDelete(name)]
      ensures ok == Succeeded(exec(old(log), UserDelete(name)))
    {
      var ret := Execute(UserDelete(name));
      ok := Succeeded(ret);
    }

    /** Lines 61-72: `net user <name> <password>`. */
    method SetPassword(name: string, password: string) returns (ok: bool)
      modifies this`log
      ensures log == old(log) + [SetUserPassword(name, password)]
      ensures ok == Succeeded(exec(old(log), SetUserPassword(name, password)))
    {
      var ret := Execute(SetUserPassword(name, password));
      ok := Succeeded(ret);
    }

    /** Lines 200-237: reads the detail view of `name`. */
    method Info(name: string) returns (r: InfoResult)
      modifies this`log
      ensures log == old(log) + [UserQuery(name)]
      ensures r == QueryAt(Machine(), old(log), name)
    {
      var reply := Execute(UserQuery(name));
      r := ParseInfo(reply.output);
    }

    /** Lines 240-256: the groups of `name`, sorted and without repeats, or `None`
        (False) when `info` finds no account or raises KeyError. */
    method ListGroups(name: string) returns (r: Option<seq<string>>)
      modifies this`log
      ensures log == old(log) + [UserQuery(name)]
      ensures r == ListGroupsAt(Machine(), old(log), name)
    {
      var user := Info(name);
      if !user.Found? {
        return None;
      }
      var ugrp := SortedGroups(user.user.groups);
      r := Some(ugrp);
    }

    /** Lines 75-91. */
    method AddGroup(name: string, group: string) returns (r: Outcome<bool>)
      modifies this`log
      ensures var t := AddGroupOf(Machine(), old(log), name, group);
              log == old(log) + t.issued && r == t.result
    {
      var user := Info(name);
      match user
      case NotFound => return Ok(false);
      case MissingLabel(k) => return Raised(KeyError(k));
      case Found(u) =>
        if group in u.groups {
          return Ok(true);
        }
        var ret := Execute(LocalGroupAdd(group, name));
        assert log == old(log) + [UserQuery(name), LocalGroupAdd(group, name)];
        r := Ok(Succeeded(ret));
    }

    /** Lines 94-110. */
    method RemoveGroup(name: string, group: string) returns (r: Outcome<bool>)
      modifies this`log
      ensures var t := RemoveGroupOf(Machine(), old(log), name, group);
              log == old(log) + t.issued && r == t.result
    {
      var user := Info(name);
      match user
      case NotFound => return Ok(false);
      case MissingLabel(k) => return Raised(KeyError(k));
      case Found(u) =>
        if group !in u.groups {
          return Ok(true);
        }
        var ret := Execute(LocalGroupDelete(group, name));
        assert log == old(log) + [UserQuery(name), LocalGroupDelete(group, name)];
        r := Ok(Succeeded(ret));
    }

    /** The shared body of `chhome`, `chprofile` and `chfullname`. */
    method ChangeField(name: string, field: Field, value: string) returns (r: Outcome<bool>)
      modifies this`log
      ensures var t := ChangeFieldOf(Machine(), old(log), name, field, value);
              log == old(log) + t.issued && r == t.result
    {
      var preInfo := Info(name);
      match preInfo
      case NotFound => return Ok(false);
      case MissingLabel(k) => return Raised(KeyError(k));
      case Found(pre) =>
        if value == FieldOf(pre, field) {
          return Ok(true);
        }
        var c := SetCommand(field, name, value);
        var _ := Execute(c);
        ConcatAssoc(old(log), [UserQuery(name)], [c]);
        assert [UserQuery(name)] + [c] == [UserQuery(name), c];
        var postInfo := Info(name);
        ConcatAssoc(old(log), [UserQuery(name), c], [UserQuery(name)]);
        assert [UserQuery(name), c] + [UserQuery(name)] == [UserQuery(name), c, UserQuery(name)];
        match postInfo
        case NotFound => return Raised(KeyError(FieldKey(field)));
        case MissingLabel(k) => return Raised(KeyError(k));
        case Found(post) =>
          if FieldOf(post, field) != FieldOf(pre, field) {
            return Ok(FieldOf(post, field) == value);
          }
          return Ok(false);
    }

    /** Lines 113-131. */
    method ChHome(name: string, home: string) returns (r: Outcome<bool>)
      modifies this`log
      ensures var t := ChangeFieldOf(Machine(), old(log), name, Home, home);
              log == old(log) + t.issued && r == t.result
    {
      r := ChangeField(name, Home, home);
    }

    /** Lines 134-152. */
    method ChProfile(name: string, profile: string) returns (r: Outcome<bool>)
      modifies this`log
      ensures var t := ChangeFieldOf(Machine(), old(log), name, Profile, profile);
              log == old(log) + t.issued && r == t.result
    {
      r := ChangeField(name, Profile, profile);
    }

    /** Lines 154-172. */
    method ChFullName(name: string, fullname: string) returns (r: Outcome<bool>)
      modifies this`log
      ensures var t := ChangeFieldOf(Machine(), old(log), name, FullName, fullname);
              log == old(log) + t.issued && r == t.result
    {
      r := ChangeField(name, FullName, fullname);
    }

    /** Lines 190-192: one `/delete` per group of `cur`, in order. */
    method RemoveAll(name: string, cur: seq<string>)
      modifies this`log
      ensures log == old(log) + Deletes(cur, name)
    {
      for i := 0 to |cur|
        invariant log == old(log) + Deletes(cur[..i], name)
      {
        var _ := Execute(LocalGroupDelete(cur[i], name));
        assert Deletes(cur[..i + 1], name) == Deletes(cur[..i], name) + [LocalGroupDelete(cur[i], name)];
      }
      assert cur[..|cur|] == cur;
    }

    /** Lines 193-195: one `/add` per group of `req`, in order. */
    method AddAll(name: string, req: seq<string>)
      modifies this`log
      ensures log == old(log) + Adds(req, name)
    {
      for i := 0 to |req|
        invariant log == old(log) + Adds(req[..i], name)
      {
        var _ := Execute(LocalGroupAdd(req[i], name));
        assert Adds(req[..i + 1], name) == Adds(req[..i], name) + [LocalGroupAdd(req[i], name)];
      }
      assert req[..|req|] == req;
    }

    /** Lines 175-197. */
    method ChGroups(name: string, groups: Groups, append: bool) returns (r: Outcome<bool>)
      modifies this`log
      ensures var t := ChGroupsOf(Machine(), old(log), name, groups, append);
              log == old(log) + t.issued && r == t.result
    {
      var req: seq<string>;
      match groups {
        case Str(s) => req := Split(s, ",");
        case List(gs) => req := gs;
      }
      assert req == Requested(groups);
      var ugrps := ListGroups(name);
      if ugrps.None? {
        return Raised(TypeError);
      }
      if Elems(ugrps.value) == Elems(req) {
        return Ok(true);
      }
      ghost var h1 := log;
      ghost var td: seq<Command> := [];
      if !append {
        var current := ListGroups(name);
        if current.None? {
          assert log == old(log) + [UserQuery(name), UserQuery(name)];
          return Raised(TypeError);
        }
        RemoveAll(name, current.value);
        td := [UserQuery(name)] + Deletes(current.value, name);
        assert Teardown(Machine(), h1, name, append) == Some(td);
        ConcatAssoc(h1, [UserQuery(name)], Deletes(current.value, name));
      } else {
        assert Teardown(Machine(), h1, name, append) == Some(td);
        assert log == h1 + td;
      }
      AddAll(name, req);
      ghost var pre := [UserQuery(name)] + td + Adds(req, name);
      ConcatAssoc(old(log), [UserQuery(name)], td);
      ConcatAssoc(old(log), [UserQuery(name)] + td, Adds(req, name));
      var agrps := ListGroups(name);
      ConcatAssoc(old(log), pre, [UserQuery(name)]);
      if agrps.None? {
        return Raised(TypeError);
      }
      r := Ok(|Elems(ugrps.value) - Elems(agrps.value)| == 0);
    }

    /** Lines 287-300: the entry of each name in turn, from its `info`. */
    method LookupAll(users: seq<string>) returns (r: Outcome<seq<Entry>>)
      modifies this`log
      ensures var t := EntriesOf(Machine(), old(log), users);
              log == old(log) + t.issued && r == t.result
    {
      var ret: seq<Entry> := [];
      for i := 0 to |users|
        invariant log == old(log) + Queries(users[..i])
        invariant EntriesOf(Machine(), old(log), users[..i]) == Trace(Ok(ret), Queries(users[..i]))
      {
        EntriesStep(Machine(), old(log), users, i, ret);
        var userInfo := Info(users[i]);
        ConcatAssoc(old(log), Queries(users[..i]), [UserQuery(users[i])]);
        match userInfo
        case NotFound =>
          EntriesStopAtError(Machine(), old(log), users, i + 1);
          return Raised(KeyError("name"));
        case MissingLabel(k) =>
          EntriesStopAtError(Machine(), old(log), users, i + 1);
          return Raised(KeyError(k));
        case Found(u) =>
          var uid := uidOf(u.name);
          ret := ret + [Entry(gid := "", groups := u.groups, home := u.home, name := u.name,
                              passwd := "", shell := "", uid := uid)];
      }
      assert users[..|users|] == users;
      r := Ok(ret);
    }

    /** Lines 259-303: the run's cached listing, or a fresh one, cached on success. */
    method Getent() returns (r: Outcome<seq<Entry>>)
      modifies this`log, this`context
      ensures var t := GetentOf(Machine(), old(log), old(context));
              log == old(log) + t.issued && r == t.result
      ensures context == if old(context).None? && r.Ok? then Some(r.value) else old(context)
    {
      if context.Some? {
        return Ok(context.value);
      }
      var reply := Execute(UserList);
      var users := ParseUserList(reply.output);
      ghost var h1 := log;
      r := LookupAll(users);
      ConcatAssoc(old(log), [UserList], EntriesOf(Machine(), h1, users).issued);
      if r.Ok? {
        context := Some(r.value);
      }
    }
  }
}
