/** Task labels and the token parser (internal/store/store.go, internal/nxartifact/inspect.go). */
module TaskLabel {
  import opened Wrappers
  import opened CatalogSpec
  import opened Text

  /** TaskInfo.Label. */
  function Label(t: TaskInfo): string {
    if t.project != "" && t.target != "" && t.config != "" then t.project + ":" + t.target + ":" + t.config
    else if t.project != "" && t.target != "" then t.project + ":" + t.target
    else if t.target != "" then t.target
    else t.project
  }

  /** Empty parts are left out from the right; without a target the project stands alone. */
  lemma LabelSpells(p: string, t: string, c: string, k: string)
    ensures p != "" && t != "" && c != "" ==> Label(TaskInfo(p, t, c, k)) == p + ":" + t + ":" + c
    ensures p != "" && t != "" && c == "" ==> Label(TaskInfo(p, t, c, k)) == p + ":" + t
    ensures p == "" ==> Label(TaskInfo(p, t, c, k)) == t
    ensures t == "" ==> Label(TaskInfo(p, t, c, k)) == p
  {
  }

  datatype Task = Task(project: string, target: string, config: string)

  /** parseTaskToken. */
  function ParseToken(token: string): Option<Task> {
    var parts := Split(token, ':');
    if |parts| < 2 || parts[0] == "" || parts[1] == "" then None
    else Some(Task(parts[0], parts[1], if |parts| > 2 then Join(parts[2..], ':') else ""))
  }

  function LabelOf(t: Task): string { Label(TaskInfo(t.project, t.target, t.config, "")) }

  /**
    What cleanToken strips from the end: punctuation other than / @ - _ and the dot. Which
    characters beyond ASCII count as punctuation is a table of Unicode, here `wide`.
   */
  predicate Stripped(c: char, wide: char -> bool) {
    c in {'!', '"', '#', '%', '&', '\'', '(', ')', '*', ',', ':', ';', '?', '[', '\\', ']', '{', '}'}
    || (c as int >= 0x80 && wide(c))
  }

  function CleanToken(token: string, wide: char -> bool): string {
    if token != "" && Stripped(token[|token| - 1], wide) then CleanToken(token[..|token| - 1], wide) else token
  }

  /** In ASCII that is every visible character but letters, digits, the five exceptions and the symbols. */
  lemma StrippedCodes(c: char, wide: char -> bool)
    requires 33 <= c as int <= 126
    ensures !Stripped(c, wide) <==>
            var n := c as int;
            || 48 <= n <= 57 || 65 <= n <= 90 || 97 <= n <= 122
            || c in {'/', '@', '-', '_', '.'}
            || c in {'$', '+', '<', '=', '>', '^', '`', '|', '~'}
  {
  }

  /** What is cut off is a tail of such characters, and all of it. */
  lemma {:induction false} CleanTokenCutsTail(token: string, wide: char -> bool)
    ensures var clean := CleanToken(token, wide);
            && clean <= token
            && (forall i | |clean| <= i < |token| :: Stripped(token[i], wide))
            && (clean != "" ==> !Stripped(clean[|clean| - 1], wide))
  {
    if token != "" && Stripped(token[|token| - 1], wide) {
      CleanTokenCutsTail(token[..|token| - 1], wide);
    }
  }

  lemma {:induction false} CleanHasNoTrailingColon(token: string, wide: char -> bool)
    ensures var clean := CleanToken(token, wide); clean != "" ==> clean[|clean| - 1] != ':'
  {
    if token != "" && Stripped(token[|token| - 1], wide) {
      CleanHasNoTrailingColon(token[..|token| - 1], wide);
    }
  }

  lemma SplitLabel(p: string, rest: string)
    requires ':' !in p
    ensures Split(p + ":" + rest, ':') == [p] + Split(rest, ':')
  {
    SplitConcat(p, ':', rest);
    SplitNone(p, ':');
  }

  /** The token has a project and a target, and perhaps more behind a second colon. */
  ghost predicate NamesTask(token: string, p: string, t: string, rest: Option<string>) {
    && p != "" && t != "" && ':' !in p && ':' !in t
    && token == p + ":" + t + (if rest.Some? then ":" + rest.value else "")
  }

  lemma SplitTwo(p: string, t: string)
    requires ':' !in p && ':' !in t
    ensures Split(p + ":" + t, ':') == [p, t]
  {
    SplitLabel(p, t);
    SplitNone(t, ':');
  }

  lemma SplitMore(p: string, t: string, rest: string)
    requires ':' !in p && ':' !in t
    ensures var parts := Split(p + ":" + (t + ":" + rest), ':');
            |parts| > 2 && parts[0] == p && parts[1] == t && parts[2..] == Split(rest, ':')
  {
    SplitLabel(p, t + ":" + rest);
    SplitLabel(t, rest);
  }

  lemma SplitNamed(token: string, p: string, t: string, rest: Option<string>)
    requires NamesTask(token, p, t, rest)
    ensures ParseToken(token) == Some(Task(p, t, if rest.Some? then rest.value else ""))
  {
    if rest.None? {
      assert token == p + ":" + t;
      SplitTwo(p, t);
    } else {
      assert token == p + ":" + (t + ":" + rest.value);
      SplitMore(p, t, rest.value);
      JoinSplit(rest.value, ':');
    }
  }

  /**
    Parsing a label gives back project, target and configuration exactly when project and
    target are non-empty and free of colons, whatever the configuration holds.
   */
  lemma ParseOfLabel(t: Task)
    ensures ParseToken(LabelOf(t)) == Some(t) <==>
            t.project != "" && t.target != "" && ':' !in t.project && ':' !in t.target
  {
    JoinSplit(LabelOf(t), ':');
    if t.project != "" && t.target != "" && ':' !in t.project && ':' !in t.target {
      SplitNamed(LabelOf(t), t.project, t.target, if t.config == "" then None else Some(t.config));
    }
  }

  lemma ParsedNames(token: string) returns (rest: Option<string>)
    requires ParseToken(token).Some?
    ensures NamesTask(token, ParseToken(token).value.project, ParseToken(token).value.target, rest)
  {
    var parts := Split(token, ':');
    JoinSplit(token, ':');
    assert Join(parts, ':') == parts[0] + ":" + Join(parts[1..], ':');
    if |parts| == 2 {
      rest := None;
      assert Join(parts[1..], ':') == parts[1];
    } else {
      rest := Some(Join(parts[2..], ':'));
      assert parts[1..][1..] == parts[2..];
      assert Join(parts[1..], ':') == parts[1] + ":" + rest.value;
      assert token == parts[0] + ":" + (parts[1] + ":" + rest.value);
      assert token == parts[0] + ":" + parts[1] + (":" + rest.value);
    }
  }

  /** A token parses exactly when it names a task, and then to that task. */
  lemma ParsesExactlyWhen(token: string, task: Task)
    ensures ParseToken(token) == Some(task) <==>
            exists rest ::
              && NamesTask(token, task.project, task.target, rest)
              && task.config == (if rest.Some? then rest.value else "")
  {
    if ParseToken(token) == Some(task) {
      var rest := ParsedNames(token);
      SplitNamed(token, task.project, task.target, rest);
    }
    if rest :| NamesTask(token, task.project, task.target, rest)
               && task.config == (if rest.Some? then rest.value else "") {
      SplitNamed(token, task.project, task.target, rest);
    }
  }

  /** `project:target:` and nothing behind: the one accepted shape whose label differs. */
  predicate BareTrailingColon(token: string) {
    |Split(token, ':')| == 3 && Split(token, ':')[2] == ""
  }

  /** The label of a parsed token is the token, except for a lone trailing colon. */
  lemma LabelOfParse(token: string)
    requires ParseToken(token).Some?
    ensures LabelOf(ParseToken(token).value) == token <==> !BareTrailingColon(token)
  {
    var parts := Split(token, ':');
    JoinSplit(token, ':');
    var t := ParseToken(token).value;
    assert Join(parts, ':') == parts[0] + ":" + Join(parts[1..], ':');
    if |parts| == 2 {
      assert Join(parts[1..], ':') == parts[1];
    } else {
      assert parts[1..][1..] == parts[2..];
      assert Join(parts[1..], ':') == parts[1] + ":" + t.config;
      assert token == parts[0] + ":" + (parts[1] + ":" + t.config);
      assert token == parts[0] + ":" + parts[1] + ":" + t.config;
      if |parts| == 3 {
        assert parts[2..] == [parts[2]];
      } else {
        assert |Join(parts[2..], ':')| > 0;
      }
    }
  }

  lemma TrailingColon(token: string)
    requires BareTrailingColon(token)
    ensures token != "" && token[|token| - 1] == ':'
  {
    JoinSplit(token, ':');
    var parts := Split(token, ':');
    assert Join(parts, ':') == parts[0] + ":" + Join(parts[1..], ':');
    assert Join(parts[1..], ':') == parts[1] + ":" + Join(parts[1..][1..], ':');
    assert parts[1..][1..] == [parts[2]];
  }

  /** Every cleaned token that parses is its own label. */
  lemma CleanTokenRoundTrip(token: string, wide: char -> bool)
    requires ParseToken(CleanToken(token, wide)).Some?
    ensures LabelOf(ParseToken(CleanToken(token, wide)).value) == CleanToken(token, wide)
  {
    var clean := CleanToken(token, wide);
    CleanHasNoTrailingColon(token, wide);
    if BareTrailingColon(clean) {
      TrailingColon(clean);
      assert false;
    }
    LabelOfParse(clean);
  }
}
