/** The two text layouts of the Windows `net user` command and how
    salt/modules/win_useradd.py reads them:
    - the detail view of one account (`net user <name>`), read by `info`;
    - the enumeration view of all accounts (`net user`), read by `getent`;
    and the normalisation of an account's groups done by `list_groups`.
    Each reader is a method with the source's loop, proved equal to a
    specification function whose properties are lemmas. */
module NetOutput {
  import opened PyStr
  import opened StrOrder

  /** Marker of an unknown account in the detail view. */
  const NOT_FOUND := "name could not be found"
  /** Marker of the status line ("The command completed successfully."). */
  const SUCCESS := "successfully"
  /** Label/value separator of the detail view: four spaces. */
  const LABEL_SEP := "    "
  /** Separator between group names in the group field: two spaces. */
  const GROUP_SEP := "  "
  /** Divider before the account names in the enumeration view. */
  const DIVIDER := "----------"

  const GROUPS_LABEL := "Local Group Memberships"
  const FULLNAME_LABEL := "Full Name"
  const NAME_LABEL := "User name"
  const COMMENT_LABEL := "Comment"
  const ACTIVE_LABEL := "Account active"
  const SCRIPT_LABEL := "Logon script"
  const PROFILE_LABEL := "User profile"
  const HOME_LABEL := "Home directory"

  /** The labels `info` looks up, in the order it looks them up. */
  const REQUIRED_LABELS := [GROUPS_LABEL, FULLNAME_LABEL, NAME_LABEL, COMMENT_LABEL,
                            ACTIVE_LABEL, SCRIPT_LABEL, PROFILE_LABEL, HOME_LABEL]

  /** The dict `info` returns for an existing account. */
  datatype UserInfo = UserInfo(
    fullname: string,
    name: string,
    comment: string,
    active: string,
    logonscript: string,
    profile: string,
    home: string,
    groups: seq<string>,
    gid: string)

  /** What `info` produces: the record, the empty dict for an unknown account, or the
      KeyError raised for the first required label the detail view lacks. */
  datatype InfoResult = NotFound | Found(user: UserInfo) | MissingLabel(key: string)

  // ==================================================================
  // Detail view: one line
  // ==================================================================

  /** The (label, value) entry one line of the detail view contributes (lines 215-219). */
  function LineEntry(line: string): Option<(string, string)> {
    if Contains(line, SUCCESS) then None
    else
      var comps := SplitOnce(line, LABEL_SEP);
      if |comps| > 1 then Some((Strip(comps[0]), Strip(comps[1]))) else None
  }

  /** A line yields an entry exactly when it has no status marker and has a four-space
      run; the label is the stripped text before the first such run, the value the
      stripped rest. */
  lemma LineEntrySpec(line: string)
    ensures LineEntry(line).Some? <==> !Contains(line, SUCCESS) && Contains(line, LABEL_SEP)
    ensures LineEntry(line).Some? ==>
              Find(line, LABEL_SEP).Some? && OccursAt(line, LABEL_SEP, Find(line, LABEL_SEP).value)
    ensures LineEntry(line).Some? ==>
              var i := Find(line, LABEL_SEP).value;
              LineEntry(line).value == (Strip(line[..i]), Strip(line[i + |LABEL_SEP|..]))
  {
    SplitOnceSpec(line, LABEL_SEP);
    if LineEntry(line).Some? {
      var comps := SplitOnce(line, LABEL_SEP);
      FirstOccurrenceSplits(line, LABEL_SEP, |comps[0]|, comps[1]);
    }
  }

  /** If `s` is `s[..n] + sep + rest` with no occurrence of `sep` before `n`, then `n`
      is where `find` stops. */
  lemma FirstOccurrenceSplits(s: string, sep: string, n: nat, rest: string)
    requires n <= |s| && s == s[..n] + sep + rest
    requires forall j: nat :: j < n ==> !OccursAt(s, sep, j)
    ensures Find(s, sep) == Some(n) && rest == s[n + |sep|..]
  {
    FindSpec(s, sep);
    assert s[n..n + |sep|] == sep;
    assert OccursAt(s, sep, n);
  }

  /** The line defines label `k`. */
  predicate Defines(line: string, k: string) {
    LineEntry(line).Some? && LineEntry(line).value.0 == k
  }

  // ==================================================================
  // Detail view: the label map `items` (lines 212-219)
  // ==================================================================

  /** The `items` dict after reading `lines`, a later line overwriting an earlier one. */
  function Items(lines: seq<string>): map<string, string>
    decreases |lines|
  {
    if lines == [] then map[]
    else
      var items := Items(lines[..|lines| - 1]);
      match LineEntry(lines[|lines| - 1])
      case None => items
      case Some(kv) => items[kv.0 := kv.1]
  }

  /** Reading one more line updates `items` with that line's entry, if any. */
  lemma ItemsStep(lines: seq<string>, i: nat)
    requires i < |lines|
    ensures Items(lines[..i + 1]) == match LineEntry(lines[i])
                                     case None => Items(lines[..i])
                                     case Some(kv) => Items(lines[..i])[kv.0 := kv.1]
  {
    assert lines[..i + 1][..i] == lines[..i];
  }

  /** A label is in `items` exactly when some line defines it. */
  lemma {:induction false} ItemsKeys(lines: seq<string>, k: string)
    ensures k in Items(lines) <==> exists i :: 0 <= i < |lines| && Defines(lines[i], k)
    decreases |lines|
  {
    if lines != [] {
      var init := lines[..|lines| - 1];
      var last := lines[|lines| - 1];
      ItemsKeys(init, k);
      assert k in Items(lines) <==> k in Items(init) || Defines(last, k);
      if k in Items(lines) {
        if !Defines(last, k) {
          var i :| 0 <= i < |init| && Defines(init[i], k);
          assert lines[i] == init[i];
        }
      } else {
        forall i | 0 <= i < |lines| ensures !Defines(lines[i], k) {
          if i < |init| { assert lines[i] == init[i]; }
        }
      }
    }
  }

  /** The value of a label is the one given by the last line that defines it. */
  lemma {:induction false} ItemsLastWins(lines: seq<string>, i: nat, k: string)
    requires i < |lines| && Defines(lines[i], k)
    requires forall j :: i < j < |lines| ==> !Defines(lines[j], k)
    ensures k in Items(lines) && Items(lines)[k] == LineEntry(lines[i]).value.1
    decreases |lines|
  {
    var init := lines[..|lines| - 1];
    if i < |lines| - 1 {
      forall j | i < j < |init| ensures !Defines(init[j], k) {
        assert init[j] == lines[j];
      }
      ItemsLastWins(init, i, k);
    }
  }

  // ==================================================================
  // Detail view: the group field (lines 220-225)
  // ==================================================================

  /** `grouplist` after the pieces `pieces`: each non-empty piece with its surrounding
      asterisks removed, in order. */
  function GroupList(pieces: seq<string>): seq<string>
    decreases |pieces|
  {
    if pieces == [] then []
    else
      var last := pieces[|pieces| - 1];
      GroupList(pieces[..|pieces| - 1]) + (if last == "" then [] else [StripStars(last)])
  }

  /** Order is kept: the groups of two runs of pieces are those of each, one after the other. */
  lemma {:induction false} GroupListAppend(a: seq<string>, b: seq<string>)
    ensures GroupList(a + b) == GroupList(a) + GroupList(b)
    decreases |b|
  {
    if b != [] {
      var b' := b[..|b| - 1];
      assert (a + b)[..|a + b| - 1] == a + b';
      GroupListAppend(a, b');
    } else {
      assert a + b == a;
    }
  }

  /** A group is listed exactly when some non-empty piece strips to it. */
  lemma {:induction false} GroupListMembers(pieces: seq<string>, g: string)
    ensures g in GroupList(pieces) <==> exists p :: p in pieces && p != "" && StripStars(p) == g
    decreases |pieces|
  {
    if pieces != [] {
      var init := pieces[..|pieces| - 1];
      GroupListMembers(init, g);
      assert pieces == init + [pieces[|pieces| - 1]];
    }
  }

  /** An occurrence inside an infix is an occurrence in the whole string. */
  lemma OccursInWhole(s: string, i: nat, j: nat, sub: string, k: nat)
    requires i <= j <= |s| && OccursAt(s[i..j], sub, k)
    ensures OccursAt(s, sub, i + k)
  {
    var u, v := s[i + k..i + k + |sub|], s[i..j][k..k + |sub|];
    assert forall m :: 0 <= m < |sub| ==> u[m] == v[m];
    assert u == sub;
  }

  /** An occurrence lying inside an infix is an occurrence in the infix. */
  lemma OccursInPart(s: string, i: nat, j: nat, sub: string, k: nat)
    requires i <= j <= |s| && OccursAt(s, sub, i + k) && i + k + |sub| <= j
    ensures OccursAt(s[i..j], sub, k)
  {
    var u, v := s[i..j][k..k + |sub|], s[i + k..i + k + |sub|];
    assert forall m :: 0 <= m < |sub| ==> u[m] == v[m];
    assert u == sub;
  }

  /** The characters of an occurrence are those of `sub`. */
  lemma OccurrenceChar(s: string, sub: string, j: nat, p: nat)
    ensures OccursAt(s, sub, j) && j <= p < j + |sub| ==> s[p] == sub[p - j]
  {
    if OccursAt(s, sub, j) && j <= p < j + |sub| {
      assert s[p] == s[j..j + |sub|][p - j];
    }
  }

  /** An infix of a string that does not contain `sub` does not contain it either. */
  lemma NotContainsInfix(s: string, i: nat, j: nat, sub: string)
    requires i <= j <= |s| && !Contains(s, sub)
    ensures !Contains(s[i..j], sub)
  {
    ContainsSpec(s, sub);
    ContainsSpec(s[i..j], sub);
    forall k: nat | OccursAt(s[i..j], sub, k) ensures false {
      OccursInWhole(s, i, j, sub, k);
    }
  }

  /** No group name read from a group field contains a two-space run. */
  lemma GroupsHaveNoDoubleSpace(value: string, g: string)
    requires g in GroupList(Split(value, GROUP_SEP))
    ensures !Contains(g, GROUP_SEP)
  {
    var pieces := Split(value, GROUP_SEP);
    SplitSpec(value, GROUP_SEP);
    GroupListMembers(pieces, g);
    var p :| p in pieces && p != "" && StripStars(p) == g;
    TrimSpec(p, IsStar);
    var i, j :| 0 <= i <= j <= |p| && g == p[i..j];
    NotContainsInfix(p, i, j, GROUP_SEP);
  }

  /** Lines 221-225 as written: split the field on two spaces, skip empty pieces,
      strip asterisks from the others. */
  method ParseGroups(value: string) returns (grouplist: seq<string>)
    ensures grouplist == GroupList(Split(value, GROUP_SEP))
  {
    var groups := Split(value, GROUP_SEP);
    grouplist := [];
    for i := 0 to |groups|
      invariant grouplist == GroupList(groups[..i])
    {
      var group := groups[i];
      assert groups[..i + 1][..i] == groups[..i];
      if group != "" {
        grouplist := grouplist + [StripStars(group)];
      }
    }
    assert groups[..|groups|] == groups;
  }

  /** Two non-empty pieces give their two groups, in order. */
  lemma GroupListPair(a: string, b: string)
    requires a != "" && b != ""
    ensures GroupList([a, b]) == [StripStars(a), StripStars(b)]
  {
    var p := [a, b];
    assert p[..1] == [a];
    assert p[..1][..0] == [];
    assert GroupList(p[..1]) == [StripStars(a)];
    assert GroupList(p) == GroupList(p[..1]) + [StripStars(b)];
  }

  /** Three spaces between two groups: the first two separate them. */
  lemma OddRunFirst()
    ensures Find("*Users   *Admins", GROUP_SEP) == Some(6)
  {
    var s := "*Users   *Admins";
    assert s == s[..6] + GROUP_SEP + s[8..];
    forall j: nat | j < 6 ensures !OccursAt(s, GROUP_SEP, j) {
      OccurrenceChar(s, GROUP_SEP, j, j);
      OccurrenceChar(s, GROUP_SEP, j, j + 1);
    }
    FirstOccurrenceSplits(s, GROUP_SEP, 6, s[8..]);
  }

  /** The third space stays with the second group, which holds no double space. */
  lemma OddRunRest()
    ensures Split(" *Admins", GROUP_SEP) == [" *Admins"]
  {
    var rest := " *Admins";
    forall j: nat ensures !OccursAt(rest, GROUP_SEP, j) {
      OccurrenceChar(rest, GROUP_SEP, j, j);
      OccurrenceChar(rest, GROUP_SEP, j, j + 1);
    }
    FindSpec(rest, GROUP_SEP);
    assert Find(rest, GROUP_SEP) == None;
  }

  lemma OddRunSplit()
    ensures Split("*Users   *Admins", GROUP_SEP) == ["*Users", " *Admins"]
  {
    var s := "*Users   *Admins";
    OddRunFirst();
    OddRunRest();
    assert s[..6] == "*Users" && s[8..] == " *Admins";
  }

  /** `strip('*')` removes the asterisk of the first group only: the second begins
      with a space. */
  lemma OddRunStrip()
    ensures StripStars("*Users") == "Users"
    ensures StripStars(" *Admins") == " *Admins"
  {
    assert LeadCount("*Users", IsStar) == 1;
    assert TrailCount("*Users", IsStar) == 0;
    assert LeadCount(" *Admins", IsStar) == 0;
    assert TrailCount(" *Admins", IsStar) == 0;
  }

  /** An odd run of spaces between two groups leaves a space and an asterisk on the
      second group. */
  lemma OddRunGroups()
    ensures GroupList(Split("*Users   *Admins", GROUP_SEP)) == ["Users", " *Admins"]
  {
    OddRunSplit();
    OddRunStrip();
    GroupListPair("*Users", " *Admins");
  }

  // ==================================================================
  // Detail view: the record (lines 220-237)
  // ==================================================================

  /** The first label of `labels` missing from `items`, if any. */
  function FirstMissing(labels: seq<string>, items: map<string, string>): (r: Option<string>)
    ensures r.None? <==> forall k :: k in labels ==> k in items
    ensures r.Some? ==> exists n :: 0 <= n < |labels| && labels[n] == r.value && r.value !in items
                                     && forall m :: 0 <= m < n ==> labels[m] in items
    decreases |labels|
  {
    if labels == [] then None
    else if labels[0] !in items then Some(labels[0])
    else
      var r := FirstMissing(labels[1..], items);
      if r.Some? then
        var n :| 0 <= n < |labels[1..]| && labels[1..][n] == r.value && r.value !in items
                 && forall m :: 0 <= m < n ==> labels[1..][m] in items;
        assert labels[n + 1] == r.value;
        r
      else r
  }

  /** The record `info` builds from `items`, or the KeyError of its first failed lookup. */
  function Record(items: map<string, string>): InfoResult {
    match FirstMissing(REQUIRED_LABELS, items)
    case Some(k) => MissingLabel(k)
    case None =>
      Found(UserInfo(
        fullname := items[FULLNAME_LABEL],
        name := items[NAME_LABEL],
        comment := items[COMMENT_LABEL],
        active := items[ACTIVE_LABEL],
        logonscript := items[SCRIPT_LABEL],
        profile := items[PROFILE_LABEL],
        home := items[HOME_LABEL],
        groups := GroupList(Split(items[GROUPS_LABEL], GROUP_SEP)),
        gid := ""))
  }

  /** Some line of the text carries the unknown-account marker. */
  predicate HasNotFoundLine(lines: seq<string>) {
    exists i :: 0 <= i < |lines| && Contains(lines[i], NOT_FOUND)
  }

  /** What `info` makes of the output of `net user <name>`. */
  function InfoOf(text: string): InfoResult {
    var lines := SplitLines(text);
    if HasNotFoundLine(lines) then NotFound else Record(Items(lines))
  }

  /** Lines 208-237 as written: one pass over the lines, returning the empty record at
      the first unknown-account line, then the label lookups in source order. */
  method ParseInfo(text: string) returns (r: InfoResult)
    ensures r == InfoOf(text)
  {
    var lines := SplitLines(text);
    var items: map<string, string> := map[];
    var i := 0;
    while i < |lines|
      invariant i <= |lines|
      invariant forall j :: 0 <= j < i ==> !Contains(lines[j], NOT_FOUND)
      invariant items == Items(lines[..i])
    {
      var line := lines[i];
      if Contains(line, NOT_FOUND) {
        assert HasNotFoundLine(lines);
        return NotFound;
      }
      ItemsStep(lines, i);
      items := ReadLine(items, line);
      i := i + 1;
    }
    assert lines[..i] == lines;
    r := BuildRecord(items);
  }

  /** Lines 215-219 as written: a line without the status marker that has a four-space
      run sets the stripped text before the run to the stripped text after it. */
  method ReadLine(items: map<string, string>, line: string) returns (items': map<string, string>)
    ensures items' == match LineEntry(line)
                      case None => items
                      case Some(kv) => items[kv.0 := kv.1]
  {
    items' := items;
    if !Contains(line, SUCCESS) {
      var comps := SplitOnce(line, LABEL_SEP);
      if |comps| > 1 {
        items' := items[Strip(comps[0]) := Strip(comps[1])];
      }
    }
  }

  /** The first missing required label is the KeyError `info` raises. */
  lemma RecordMissing(items: map<string, string>, n: nat)
    requires n < |REQUIRED_LABELS| && REQUIRED_LABELS[n] !in items
    requires forall m :: 0 <= m < n ==> REQUIRED_LABELS[m] in items
    ensures Record(items) == MissingLabel(REQUIRED_LABELS[n])
  {
    var r := FirstMissing(REQUIRED_LABELS, items);
    assert REQUIRED_LABELS[n] in REQUIRED_LABELS;
    var n' :| 0 <= n' < |REQUIRED_LABELS| && REQUIRED_LABELS[n'] == r.value && r.value !in items
              && forall m :: 0 <= m < n' ==> REQUIRED_LABELS[m] in items;
    assert n' == n;
  }

  /** Lines 220-237 as written: the label lookups in source order, the group field
      being split before the other labels are read. */
  method BuildRecord(items: map<string, string>) returns (r: InfoResult)
    ensures r == Record(items)
  {
    if GROUPS_LABEL !in items { RecordMissing(items, 0); return MissingLabel(GROUPS_LABEL); }
    var grouplist := ParseGroups(items[GROUPS_LABEL]);
    if FULLNAME_LABEL !in items { RecordMissing(items, 1); return MissingLabel(FULLNAME_LABEL); }
    if NAME_LABEL !in items { RecordMissing(items, 2); return MissingLabel(NAME_LABEL); }
    if COMMENT_LABEL !in items { RecordMissing(items, 3); return MissingLabel(COMMENT_LABEL); }
    if ACTIVE_LABEL !in items { RecordMissing(items, 4); return MissingLabel(ACTIVE_LABEL); }
    if SCRIPT_LABEL !in items { RecordMissing(items, 5); return MissingLabel(SCRIPT_LABEL); }
    if PROFILE_LABEL !in items { RecordMissing(items, 6); return MissingLabel(PROFILE_LABEL); }
    if HOME_LABEL !in items { RecordMissing(items, 7); return MissingLabel(HOME_LABEL); }
    assert forall k :: k in REQUIRED_LABELS ==> k in items;
    r := Found(UserInfo(
      fullname := items[FULLNAME_LABEL],
      name := items[NAME_LABEL],
      comment := items[COMMENT_LABEL],
      active := items[ACTIVE_LABEL],
      logonscript := items[SCRIPT_LABEL],
      profile := items[PROFILE_LABEL],
      home := items[HOME_LABEL],
      groups := grouplist,
      gid := ""));
  }

  /** The unknown-account marker wins wherever it appears and whatever the other
      lines say: text made of any lines ended by one boundary, one of which carries
      the marker, and a last line `tail` with no boundary after it, reads as the
      empty record. */
  lemma NotFoundAnywhere(before: seq<string>, line: string, after: seq<string>, eol: string, tail: string)
    requires forall k :: 0 <= k < |before| ==> NoLineBreak(before[k])
    requires forall k :: 0 <= k < |after| ==> NoLineBreak(after[k])
    requires NoLineBreak(line) && Contains(line, NOT_FOUND)
    requires NoLineBreak(tail) && IsTerminator(eol)
    ensures InfoOf(UnLines(before + [line] + after, eol) + tail) == NotFound
  {
    var lines := before + [line] + after;
    var text := UnLines(lines, eol) + tail;
    forall k | 0 <= k < |lines| ensures NoLineBreak(lines[k]) {
      if k < |before| {
        assert lines[k] == before[k];
      } else if k > |before| {
        assert lines[k] == after[k - |before| - 1];
      }
    }
    SplitLinesUnLines(lines, eol, tail);
    var all := lines + (if tail == [] then [] else [tail]);
    assert all[|before|] == line;
    assert HasNotFoundLine(SplitLines(text));
    InfoNotFoundIff(text);
  }

  /** A marker on the last line, with no boundary after it, is found as well. */
  lemma NotFoundOnLastLine(before: seq<string>, eol: string, line: string)
    requires forall k :: 0 <= k < |before| ==> NoLineBreak(before[k])
    requires NoLineBreak(line) && Contains(line, NOT_FOUND)
    requires IsTerminator(eol)
    ensures InfoOf(UnLines(before, eol) + line) == NotFound
  {
    assert line != [] by { FindSpec(line, NOT_FOUND); }
    SplitLinesUnLines(before, eol, line);
    assert (before + [line])[|before|] == line;
  }

  /** Without the marker, `info` fails exactly with the first required label no line
      defines, and otherwise every field is the value of its label and `gid` is empty. */
  lemma InfoWithoutMarker(text: string)
    requires !HasNotFoundLine(SplitLines(text))
    ensures var items := Items(SplitLines(text));
            && !InfoOf(text).NotFound?
            && (InfoOf(text).Found? <==> forall k :: k in REQUIRED_LABELS ==> k in items)
            && (InfoOf(text).MissingLabel? ==> InfoOf(text).key in REQUIRED_LABELS && InfoOf(text).key !in items)
            && (InfoOf(text).Found? ==>
                  var u := InfoOf(text).user;
                  && u.fullname == items[FULLNAME_LABEL] && u.name == items[NAME_LABEL]
                  && u.comment == items[COMMENT_LABEL] && u.active == items[ACTIVE_LABEL]
                  && u.logonscript == items[SCRIPT_LABEL] && u.profile == items[PROFILE_LABEL]
                  && u.home == items[HOME_LABEL] && u.gid == ""
                  && u.groups == GroupList(Split(items[GROUPS_LABEL], GROUP_SEP)))
  {
  }

  /** The empty record is returned exactly when some line carries the marker. */
  lemma InfoNotFoundIff(text: string)
    ensures InfoOf(text).NotFound? <==> HasNotFoundLine(SplitLines(text))
  {
    var lines := SplitLines(text);
    if !HasNotFoundLine(lines) {
      InfoWithoutMarker(text);
    }
  }

  predicate IsBlank(c: char) { c == ' ' }

  /** A label line carries its stripped label and value. Spaces at the end of the
      label move the cut to the left, and `strip()` removes them from both pieces. */
  lemma {:induction false} LabelLine(lbl: string, value: string)
    requires !Contains(lbl, LABEL_SEP)
    requires !Contains(lbl + LABEL_SEP + value, SUCCESS)
    ensures LineEntry(lbl + LABEL_SEP + value) == Some((Strip(lbl), Strip(value)))
  {
    var m := |lbl| - TrailCount(lbl, IsBlank);
    var pad := lbl[m..];
    LabelSplit(lbl, value, m);
    assert lbl == lbl[..m] + pad;
    TrimPadRight(lbl[..m], pad, IsSpace);
    TrimPadLeft(pad, value, IsSpace);
  }

  /** The first four-space run of a label line starts where the label's trailing
      spaces start; those spaces go with the value. */
  lemma {:induction false} LabelSplit(lbl: string, value: string, m: nat)
    requires !Contains(lbl, LABEL_SEP)
    requires m <= |lbl| && (forall k :: m <= k < |lbl| ==> lbl[k] == ' ')
    requires m > 0 ==> lbl[m - 1] != ' '
    ensures SplitOnce(lbl + LABEL_SEP + value, LABEL_SEP) == [lbl[..m], lbl[m..] + value]
  {
    var line := lbl + LABEL_SEP + value;
    var pad := lbl[m..];
    assert forall k :: 0 <= k < |pad| ==> pad[k] == lbl[m + k];
    assert line[..|lbl|] == lbl;
    LabelCut(line, |lbl|, m, pad);
    PadCommutes(pad);
    LabelRegroup(lbl[..m], pad, value);
    assert lbl == lbl[..m] + pad;
    assert line[..m] == lbl[..m];
    FirstOccurrenceSplits(line, LABEL_SEP, m, pad + value);
  }

  /** Moving the label's trailing spaces past the separator. */
  lemma {:induction false} LabelRegroup(head: string, pad: string, value: string)
    requires pad + LABEL_SEP == LABEL_SEP + pad
    ensures head + pad + LABEL_SEP + value == head + LABEL_SEP + (pad + value)
  {
    calc {
      head + pad + LABEL_SEP + value;
      head + (pad + LABEL_SEP) + value;
      head + (LABEL_SEP + pad) + value;
    }
  }

  /** In a line whose first `n` characters hold no four-space run and end in
      spaces from `m` on, the first run starts at `m`. */
  lemma {:induction false} LabelCut(line: string, n: nat, m: nat, pad: string)
    requires m <= n && n + |LABEL_SEP| <= |line| && line[m..n] == pad
    requires forall k :: 0 <= k < |pad| ==> pad[k] == ' '
    requires line[n..n + |LABEL_SEP|] == LABEL_SEP
    requires !Contains(line[..n], LABEL_SEP)
    requires m > 0 ==> line[m - 1] != ' '
    ensures OccursAt(line, LABEL_SEP, m)
    ensures forall j: nat :: j < m ==> !OccursAt(line, LABEL_SEP, j)
  {
    RunAtPad(line, n, m, pad);
    NoRunBeforePad(line, n, m);
  }

  /** Spaces before the separator are the same text as spaces after it. */
  lemma {:induction false} PadCommutes(pad: string)
    requires forall k :: 0 <= k < |pad| ==> pad[k] == ' '
    ensures pad + LABEL_SEP == LABEL_SEP + pad
  {
    var u, v := pad + LABEL_SEP, LABEL_SEP + pad;
    forall k | 0 <= k < |u| ensures u[k] == ' ' && v[k] == ' ' {
      if k < |pad| { assert u[k] == pad[k]; } else { assert u[k] == LABEL_SEP[k - |pad|]; }
      if k < |LABEL_SEP| { assert v[k] == LABEL_SEP[k]; } else { assert v[k] == pad[k - |LABEL_SEP|]; }
    }
  }

  /** The padding and the separator after it start a four-space run. */
  lemma {:induction false} RunAtPad(line: string, n: nat, m: nat, pad: string)
    requires m <= n && n + |LABEL_SEP| <= |line| && line[m..n] == pad
    requires forall k :: 0 <= k < |pad| ==> pad[k] == ' '
    requires line[n..n + |LABEL_SEP|] == LABEL_SEP
    ensures OccursAt(line, LABEL_SEP, m)
  {
    forall k | m <= k < m + |LABEL_SEP| ensures line[k] == ' ' {
      if k < n {
        assert line[k] == line[m..n][k - m];
      } else {
        assert line[k] == line[n..n + |LABEL_SEP|][k - n];
      }
    }
    assert line[m..m + |LABEL_SEP|] == LABEL_SEP;
  }

  /** No four-space run starts before `m`: it would lie inside the first `n`
      characters or cover the non-space `line[m - 1]`. */
  lemma {:induction false} NoRunBeforePad(line: string, n: nat, m: nat)
    requires m <= n <= |line|
    requires !Contains(line[..n], LABEL_SEP)
    requires m > 0 ==> line[m - 1] != ' '
    ensures forall j: nat :: j < m ==> !OccursAt(line, LABEL_SEP, j)
  {
    ContainsSpec(line[..n], LABEL_SEP);
    forall j: nat | j < m ensures !OccursAt(line, LABEL_SEP, j) {
      OccurrenceChar(line, LABEL_SEP, j, m - 1);
      if OccursAt(line, LABEL_SEP, j) && j + |LABEL_SEP| <= n {
        OccursInPart(line, 0, n, LABEL_SEP, j);
      }
    }
  }

  // ==================================================================
  // list_groups (lines 248-256)
  // ==================================================================

  /** Lines 248-256 after the lookup: collect the groups into a set, then list the
      set sorted. */
  method SortedGroups(groups: seq<string>) returns (r: seq<string>)
    ensures StrictlySorted(r)
    ensures forall g :: g in r <==> g in groups
    ensures r == SortedSet(groups)
  {
    var ugrp: set<string> := {};
    for i := 0 to |groups|
      invariant forall g :: g in ugrp <==> g in groups[..i]
    {
      assert groups[..i + 1] == groups[..i] + [groups[i]];
      ugrp := ugrp + {groups[i]};
    }
    assert groups[..|groups|] == groups;
    // sorted(list(ugrp))
    r := [];
    var rest := ugrp;
    while rest != {}
      invariant rest <= ugrp
      invariant StrictlySorted(r)
      invariant forall g :: g in r <==> g in ugrp && g !in rest
      decreases |rest|
    {
      var g :| g in rest;
      r := Insert(r, g);
      rest := rest - {g};
    }
    SortedUnique(r, SortedSet(groups));
  }

  /** What `list_groups` returns for a detail-view result: False (None) unless the
      lookup succeeded, else the groups de-duplicated and sorted. */
  function ListGroupsOf(ir: InfoResult): (r: Option<seq<string>>)
    ensures r.None? <==> !ir.Found?
    ensures r.Some? ==> StrictlySorted(r.value)
    ensures r.Some? ==> forall g :: g in r.value <==> g in ir.user.groups
  {
    if ir.Found? then Some(SortedSet(ir.user.groups)) else None
  }

  /** Repeated calls agree: any strictly sorted listing of the same groups is the one
      `list_groups` returns. */
  lemma ListGroupsDeterministic(ir: InfoResult, other: seq<string>)
    requires ir.Found?
    requires StrictlySorted(other) && forall g :: g in other <==> g in ir.user.groups
    ensures ListGroupsOf(ir) == Some(other)
  {
    SortedUnique(ListGroupsOf(ir).value, other);
  }

  // ==================================================================
  // Enumeration view (lines 270-286)
  // ==================================================================

  /** The names `getent` collects from `lines`, given whether a divider line has been
      seen: after a divider, every line that is neither a divider nor a status line
      contributes its whitespace-separated tokens. */
  function UserNames(lines: seq<string>, started: bool): seq<string>
    decreases |lines|
  {
    if lines == [] then []
    else if Contains(lines[0], DIVIDER) then UserNames(lines[1..], true)
    else if started && !Contains(lines[0], SUCCESS) then SplitWs(lines[0]) + UserNames(lines[1..], started)
    else UserNames(lines[1..], started)
  }

  /** The account names read from the output of `net user`. */
  function UserListOf(text: string): seq<string> {
    UserNames(SplitLines(text), false)
  }

  /** Lines 272-282 as written: a flag set by the divider, then the tokens of every
      later non-divider, non-status line. */
  method ParseUserList(text: string) returns (users: seq<string>)
    ensures users == UserListOf(text)
  {
    var lines := SplitLines(text);
    users := [];
    var startusers := false;
    var i := 0;
    while i < |lines|
      invariant i <= |lines|
      invariant users + UserNames(lines[i..], startusers) == UserNames(lines, false)
    {
      var line := lines[i];
      assert lines[i..][1..] == lines[i + 1..];
      if Contains(line, DIVIDER) {
        startusers := true;
        i := i + 1;
        continue;
      }
      if startusers {
        if !Contains(line, SUCCESS) {
          var comps := SplitWs(line);
          users := users + comps;
        }
      }
      i := i + 1;
    }
  }

  /** Every collected name is a non-empty run of non-whitespace characters. */
  lemma {:induction false} UserNamesAreTokens(lines: seq<string>, started: bool)
    ensures forall k :: 0 <= k < |UserNames(lines, started)| ==> IsToken(UserNames(lines, started)[k])
    decreases |lines|
  {
    if lines != [] {
      UserNamesAreTokens(lines[1..], true);
      UserNamesAreTokens(lines[1..], started);
    }
  }

  /** Before the first divider nothing is collected: the names are those after it. */
  lemma {:induction false} NamesFollowFirstDivider(lines: seq<string>, d: nat)
    requires d < |lines| && Contains(lines[d], DIVIDER)
    requires forall j :: 0 <= j < d ==> !Contains(lines[j], DIVIDER)
    ensures UserNames(lines, false) == UserNames(lines[d + 1..], true)
    decreases d
  {
    if d > 0 {
      assert lines[1..][d - 1..] == lines[d..];
      NamesFollowFirstDivider(lines[1..], d - 1);
      assert lines[1..][d..] == lines[d + 1..];
    }
  }

  /** With no divider line there are no names. */
  lemma {:induction false} NoDividerNoNames(lines: seq<string>)
    requires forall j :: 0 <= j < |lines| ==> !Contains(lines[j], DIVIDER)
    ensures UserNames(lines, false) == []
    decreases |lines|
  {
    if lines != [] {
      NoDividerNoNames(lines[1..]);
    }
  }

  /** After the divider, names are collected line by line: those of `a + b` are those
      of `a` followed by those of `b`. */
  lemma {:induction false} UserNamesAppend(a: seq<string>, b: seq<string>)
    ensures UserNames(a + b, true) == UserNames(a, true) + UserNames(b, true)
    decreases |a|
  {
    if a == [] {
      assert a + b == b;
    } else {
      assert (a + b)[1..] == a[1..] + b;
      UserNamesAppend(a[1..], b);
    }
  }

  /** What a single line contributes after the divider: nothing for a divider or a
      status line, its tokens otherwise. */
  lemma UserNamesOfLine(line: string)
    ensures UserNames([line], true)
            == if Contains(line, DIVIDER) || Contains(line, SUCCESS) then [] else SplitWs(line)
  {
    assert [line][1..] == [];
  }

  /** The trailing status line adds no names. */
  lemma StatusLineExcluded(lines: seq<string>, status: string)
    requires Contains(status, SUCCESS)
    ensures UserNames(lines + [status], true) == UserNames(lines, true)
  {
    UserNamesAppend(lines, [status]);
    UserNamesOfLine(status);
  }
}
