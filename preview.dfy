/** The text of the "Preview Changes" window: a user section, a system
    section, a line when both lists are empty, and a closing note. The window
    and its widgets are not modelled; the result is the elements of `content`,
    which the window shows joined with newlines (an element holding a
    newline, or wrapped by the window, shows as more than one line). */
module Preview {
  import opened EnvConfig

  const UserHeader: string := "USER ENVIRONMENT VARIABLES:"
  const SystemHeader: string := "SYSTEM ENVIRONMENT VARIABLES:"
  // Each longer line is one line of the window, written as two joined
  // literals: the verifier reads single characters of a shorter literal
  // directly, which the marker lemmas below rely on.
  const AdminWarning: string := "  \U{26A0}\U{FE0F}  WARNING: Running as standard user" + " - system variables will be IGNORED"
  const NoVariablesLine: string := "No environment variables found" + " in the configuration file."
  const NoteLine1: string := "Note: After applying changes, " + "a WM_SETTINGCHANGE message will be"
  const NoteLine2: string := "broadcast to notify other applications " + "of the environment changes."
  const Indent: string := "  "
  const IgnoredPrefix: string := "  [IGNORED] "

  predicate HasPrefix(s: string, p: string) {
    |p| <= |s| && s[..|p|] == p
  }

  /** The line for one entry: `SET: n = v`, `DELETE: n`, or
      `UNKNOWN OPERATION (op): n = v`, after `prefix`. */
  function EntryLine(prefix: string, v: Variable): (line: string)
    ensures |line| > |prefix| && line[..|prefix|] == prefix
    ensures line[|prefix|] == (if v.operation == SetOp then 'S' else if v.operation == DeleteOp then 'D' else 'U')
  {
    if v.operation == SetOp then prefix + "SET: " + v.name + " = " + v.value
    else if v.operation == DeleteOp then prefix + "DELETE: " + v.name
    else prefix + "UNKNOWN OPERATION (" + v.operation + "): " + v.name + " = " + v.value
  }

  /** One line per entry, in list order. */
  function EntryLines(prefix: string, vs: seq<Variable>): seq<string> {
    seq(|vs|, i requires 0 <= i < |vs| => EntryLine(prefix, vs[i]))
  }

  lemma EntryLinesSnoc(prefix: string, vs: seq<Variable>, k: nat)
    requires k < |vs|
    ensures EntryLines(prefix, vs[..k + 1]) == EntryLines(prefix, vs[..k]) + [EntryLine(prefix, vs[k])]
  {
  }

  lemma AppendAssoc<T>(a: seq<T>, b: seq<T>, c: seq<T>)
    ensures a + b + c == a + (b + c)
  {
  }

  lemma SectionAppended<T>(content: seq<T>, hd: seq<T>, body: seq<T>, tl: seq<T>)
    ensures content + hd + body + tl == content + (hd + body + tl)
  {
  }

  function SystemPrefix(isAdmin: bool): string {
    if isAdmin then Indent else IgnoredPrefix
  }

  function UserSection(vs: seq<Variable>): seq<string> {
    if |vs| == 0 then [] else [UserHeader, ""] + EntryLines(Indent, vs) + [""]
  }

  function SystemSection(vs: seq<Variable>, isAdmin: bool): seq<string> {
    if |vs| == 0 then []
    else [SystemHeader] + (if isAdmin then [] else [AdminWarning]) + [""] + EntryLines(SystemPrefix(isAdmin), vs) + [""]
  }

  function PreviewLines(config: Config, isAdmin: bool): seq<string> {
    UserSection(config.userVariables)
    + SystemSection(config.systemVariables, isAdmin)
    + (if |config.userVariables| == 0 && |config.systemVariables| == 0 then [NoVariablesLine] else [])
    + ["", NoteLine1, NoteLine2]
  }

  /** Appends the user section: header, blank line, one line per entry, blank line. */
  method AppendUserSection(content: seq<string>, users: seq<Variable>) returns (r: seq<string>)
    ensures r == content + UserSection(users)
  {
    r := content;
    if |users| > 0 {
      ghost var hd := [UserHeader, ""];
      r := r + [UserHeader];
      r := r + [""];
      AppendAssoc(content, [UserHeader], [""]);
      ghost var head := r;
      assert head == content + hd;
      for i := 0 to |users|
        invariant r == head + EntryLines(Indent, users[..i])
      {
        EntryLinesSnoc(Indent, users, i);
        AppendAssoc(head, EntryLines(Indent, users[..i]), [EntryLine(Indent, users[i])]);
        r := r + [EntryLine(Indent, users[i])];
      }
      assert users[..|users|] == users;
      r := r + [""];
      SectionAppended(content, hd, EntryLines(Indent, users), [""]);
    }
  }

  /** Appends the system section: header, the warning when not administrator,
      blank line, one line per entry (marked ignored when not administrator),
      blank line. */
  method AppendSystemSection(content: seq<string>, systems: seq<Variable>, isAdmin: bool) returns (r: seq<string>)
    ensures r == content + SystemSection(systems, isAdmin)
  {
    r := content;
    if |systems| > 0 {
      ghost var hd := [SystemHeader] + (if isAdmin then [] else [AdminWarning]) + [""];
      r := r + [SystemHeader];
      if !isAdmin {
        r := r + [AdminWarning];
        AppendAssoc(content, [SystemHeader], [AdminWarning]);
      }
      r := r + [""];
      AppendAssoc(content, [SystemHeader] + (if isAdmin then [] else [AdminWarning]), [""]);
      ghost var head := r;
      assert head == content + hd;
      for i := 0 to |systems|
        invariant r == head + EntryLines(SystemPrefix(isAdmin), systems[..i])
      {
        var prefix := Indent;
        if !isAdmin {
          prefix := IgnoredPrefix;
        }
        assert prefix == SystemPrefix(isAdmin);
        EntryLinesSnoc(prefix, systems, i);
        AppendAssoc(head, EntryLines(prefix, systems[..i]), [EntryLine(prefix, systems[i])]);
        r := r + [EntryLine(prefix, systems[i])];
      }
      assert systems[..|systems|] == systems;
      r := r + [""];
      SectionAppended(content, hd, EntryLines(SystemPrefix(isAdmin), systems), [""]);
    }
  }

  /** The preview text for `config`, as the lines the window shows. */
  method RenderPreview(config: Config, isAdmin: bool) returns (content: seq<string>)
    ensures content == PreviewLines(config, isAdmin)
  {
    content := AppendUserSection([], config.userVariables);
    content := AppendSystemSection(content, config.systemVariables, isAdmin);
    if |config.userVariables| == 0 && |config.systemVariables| == 0 {
      content := content + [NoVariablesLine];
    }
    content := content + ["", NoteLine1, NoteLine2];
  }

  function UserSectionLength(config: Config): nat {
    if |config.userVariables| > 0 then |config.userVariables| + 3 else 0
  }

  function SystemSectionLength(config: Config, isAdmin: bool): nat {
    if |config.systemVariables| > 0 then |config.systemVariables| + 3 + (if isAdmin then 0 else 1) else 0
  }

  /** Exactly one line per entry, plus the fixed lines of each section shown. */
  lemma PreviewLength(config: Config, isAdmin: bool)
    ensures |PreviewLines(config, isAdmin)| ==
              UserSectionLength(config) + SystemSectionLength(config, isAdmin)
              + (if |config.userVariables| == 0 && |config.systemVariables| == 0 then 1 else 0) + 3
  {
  }

  /** Where the parts of a three-part concatenation sit. */
  lemma ConcatParts<T>(a: seq<T>, b: seq<T>, c: seq<T>)
    ensures |a + b + c| == |a| + |b| + |c|
    ensures forall i :: 0 <= i < |a| ==> (a + b + c)[i] == a[i]
    ensures forall i :: 0 <= i < |b| ==> (a + b + c)[|a| + i] == b[i]
    ensures forall i :: 0 <= i < |c| ==> (a + b + c)[|a| + |b| + i] == c[i]
  {
  }

  /** A non-empty user section is its header, a blank line, one line per
      entry in order and a blank line. */
  lemma UserSectionLayout(u: seq<Variable>)
    requires |u| > 0
    ensures var us := UserSection(u);
            && |us| == |u| + 3
            && us[0] == UserHeader && us[1] == "" && us[2 + |u|] == ""
            && forall i :: 0 <= i < |u| ==> us[2 + i] == EntryLine(Indent, u[i])
  {
    var hd: seq<string> := [UserHeader, ""];
    var body := EntryLines(Indent, u);
    var us := UserSection(u);
    assert us == hd + body + [""];
    ConcatParts(hd, body, [""]);
    forall i | 0 <= i < |u| ensures us[2 + i] == EntryLine(Indent, u[i]) {
      assert us[|hd| + i] == body[i];
    }
  }

  /** A non-empty system section is its header, the one warning line when not
      administrator, a blank line, one line per entry in order with the
      administrator-dependent prefix, and a blank line. */
  lemma SystemSectionLayout(s: seq<Variable>, isAdmin: bool)
    requires |s| > 0
    ensures var ss, w := SystemSection(s, isAdmin), if isAdmin then 0 else 1;
            && |ss| == |s| + 3 + w
            && ss[0] == SystemHeader && (!isAdmin ==> ss[1] == AdminWarning) && ss[1 + w] == ""
            && ss[2 + w + |s|] == ""
            && forall i :: 0 <= i < |s| ==> ss[2 + w + i] == EntryLine(SystemPrefix(isAdmin), s[i])
  {
    var hd: seq<string> := if isAdmin then [SystemHeader, ""] else [SystemHeader, AdminWarning, ""];
    var body := EntryLines(SystemPrefix(isAdmin), s);
    var ss := SystemSection(s, isAdmin);
    assert ss == hd + body + [""];
    ConcatParts(hd, body, [""]);
    forall i | 0 <= i < |s| ensures ss[|hd| + i] == EntryLine(SystemPrefix(isAdmin), s[i]) {
      assert ss[|hd| + i] == body[i];
    }
  }

  /** The preview opens with the user section, which is followed directly by
      the system section. */
  lemma PreviewSectionsInOrder(config: Config, isAdmin: bool)
    ensures var c := PreviewLines(config, isAdmin);
            var us, ss := UserSection(config.userVariables), SystemSection(config.systemVariables, isAdmin);
            && |c| >= |us| + |ss|
            && c[..|us|] == us
            && c[|us|..|us| + |ss|] == ss
  {
    var u, s := config.userVariables, config.systemVariables;
    var us, ss := UserSection(u), SystemSection(s, isAdmin);
    var rest := (if |u| == 0 && |s| == 0 then [NoVariablesLine] else []) + ["", NoteLine1, NoteLine2];
    var c := PreviewLines(config, isAdmin);
    assert c == us + ss + rest;
    ConcatParts(us, ss, rest);
    assert c[..|us|] == us;
    assert c[|us|..|us| + |ss|] == ss;
  }

  /** The empty-file line stands first when both lists are empty, and the
      preview always ends with a blank line and the two note lines. */
  lemma PreviewClosing(config: Config, isAdmin: bool)
    ensures var c := PreviewLines(config, isAdmin);
            && |c| >= 3 && c[|c| - 3..] == ["", NoteLine1, NoteLine2]
            && (|config.userVariables| == 0 && |config.systemVariables| == 0 ==> c[0] == NoVariablesLine)
  {
  }

  /** Each system entry line carries the `  [IGNORED] ` prefix exactly when the
      process is not administrator; user entry lines never carry it. */
  lemma IgnoredMarking(v: Variable, isAdmin: bool)
    ensures HasPrefix(EntryLine(SystemPrefix(isAdmin), v), IgnoredPrefix) <==> !isAdmin
    ensures !HasPrefix(EntryLine(Indent, v), IgnoredPrefix)
  {
    var line := EntryLine(SystemPrefix(isAdmin), v);
    if isAdmin {
      assert line[2] != IgnoredPrefix[2];
    }
    assert EntryLine(Indent, v)[2] != IgnoredPrefix[2];
  }

  /** No entry line is one of the marker lines: entry lines start with two
      blanks followed by `S`, `D`, `U` or `[`. */
  lemma EntryLinesAreNotMarkers(prefix: string, vs: seq<Variable>)
    requires prefix == Indent || prefix == IgnoredPrefix
    ensures UserHeader !in EntryLines(prefix, vs) && SystemHeader !in EntryLines(prefix, vs)
    ensures AdminWarning !in EntryLines(prefix, vs) && NoVariablesLine !in EntryLines(prefix, vs)
  {
    assert UserHeader[0] == 'U' && SystemHeader[0] == 'S' && NoVariablesLine[0] == 'N';
    assert AdminWarning[2] == '\U{26A0}';
    forall i | 0 <= i < |vs|
      ensures var line := EntryLines(prefix, vs)[i]; line[0] == ' ' && line[2] != '\U{26A0}'
    {
      var line := EntryLines(prefix, vs)[i];
      assert line == EntryLine(prefix, vs[i]);
      assert line[0] == prefix[0];
      if prefix == Indent {
        assert line[2] in "SDU";
      } else {
        assert line[2] == prefix[2];
      }
    }
  }

  lemma SectionMarkers(u: seq<Variable>, s: seq<Variable>, isAdmin: bool)
    ensures UserHeader in UserSection(u) <==> |u| > 0
    ensures SystemHeader !in UserSection(u) && AdminWarning !in UserSection(u) && NoVariablesLine !in UserSection(u)
    ensures SystemHeader in SystemSection(s, isAdmin) <==> |s| > 0
    ensures AdminWarning in SystemSection(s, isAdmin) <==> |s| > 0 && !isAdmin
    ensures UserHeader !in SystemSection(s, isAdmin) && NoVariablesLine !in SystemSection(s, isAdmin)
  {
    EntryLinesAreNotMarkers(Indent, u);
    EntryLinesAreNotMarkers(SystemPrefix(isAdmin), s);
  }

  /** Each marker line appears exactly when its condition holds: the user
      header iff the user list is non-empty, the system header iff the system
      list is non-empty, the warning iff additionally not administrator, and
      the empty-file line iff both lists are empty. */
  lemma PreviewMarkers(config: Config, isAdmin: bool)
    ensures var c := PreviewLines(config, isAdmin);
            var u, s := config.userVariables, config.systemVariables;
            && (UserHeader in c <==> |u| > 0)
            && (SystemHeader in c <==> |s| > 0)
            && (AdminWarning in c <==> |s| > 0 && !isAdmin)
            && (NoVariablesLine in c <==> |u| == 0 && |s| == 0)
  {
    var u, s := config.userVariables, config.systemVariables;
    SectionMarkers(u, s, isAdmin);
    var closing := ["", NoteLine1, NoteLine2];
    assert UserHeader !in closing && SystemHeader !in closing;
    assert AdminWarning !in closing && NoVariablesLine !in closing;
  }
}
