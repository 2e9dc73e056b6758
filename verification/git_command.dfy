/** The `git log` command builder: a query accumulated through setters and
    rendered as one command string. The builder is an immutable record here;
    each setter returns the updated record. */
module GitCommand {
  import opened Wrappers
  import opened Seqs
  import opened ShellWords

  /** What the log is asked for. `None` is an unset field, as after `__init__`. */
  datatype GitLog = GitLog(
    repository: Option<string>,
    authors: seq<string>,
    startDate: Option<string>,
    endDate: Option<string>)

  const GIT := "git"
  const LOG := "log"
  const REPOSITORY_FLAG := "-C"
  const AUTHOR_FLAG := "--author"
  const SINCE_FLAG := "--since"
  const UNTIL_FLAG := "--until"

  /** The fixed options after the filters, one argument each: ISO dates, date
      order, all branches. */
  const LOG_OPTION_ARGS := ["--date", "iso", "--date-order", "--branches"]

  /** The same options as they appear in the command string. */
  const LOG_OPTIONS := Join(LOG_OPTION_ARGS)

  /** A fresh builder: no repository, no authors, no dates. */
  function NewGitLog(): GitLog
  {
    GitLog(None, [], None, None)
  }

  /** `add_author`: one more author, after those already added. */
  function AddAuthor(q: GitLog, author: string): GitLog
  {
    q.(authors := q.authors + [author])
  }

  /** `set_start_date`: the `--since` value. */
  function SetStartDate(q: GitLog, date: Option<string>): GitLog
  {
    q.(startDate := date)
  }

  /** `set_end_date`: the `--until` value. */
  function SetEndDate(q: GitLog, date: Option<string>): GitLog
  {
    q.(endDate := date)
  }

  /** `set_repository`: the directory passed to `-C`. */
  function SetRepository(q: GitLog, repository: Option<string>): GitLog
  {
    q.(repository := repository)
  }

  /** Python truthiness of an optional string: set and non-empty. */
  predicate Truthy(value: Option<string>)
  {
    value.Some? && value.value != ""
  }

  /** `value and f'{flag} {value}' or ''`. */
  function FlagSegment(flag: string, value: Option<string>): (r: string)
    ensures r == "" <==> !Truthy(value)
  {
    if Truthy(value) then Spaced(flag, value.value) else ""
  }

  /** The left fold `f'{s} --author {a}'` over the authors, starting from `''`. */
  function AuthorSegment(authors: seq<string>): (r: string)
    ensures r == "" <==> |authors| == 0
    decreases |authors|
  {
    if |authors| == 0 then ""
    else Spaced(AuthorSegment(authors[..|authors| - 1]), Spaced(AUTHOR_FLAG, authors[|authors| - 1]))
  }

  /** The command line `git {repository} log {authors} {since} {until} --date iso
      --date-order --branches`, every value spliced in as written. */
  function BuildCommand(q: GitLog): string
  {
    Spaced(GIT, Spaced(FlagSegment(REPOSITORY_FLAG, q.repository), Spaced(LOG,
      Spaced(AuthorSegment(q.authors), Spaced(FlagSegment(SINCE_FLAG, q.startDate),
      Spaced(FlagSegment(UNTIL_FLAG, q.endDate), LOG_OPTIONS))))))
  }

  /** A fresh builder renders the bare command with no filter at all. */
  lemma NewGitLogCommand()
    ensures BuildCommand(NewGitLog()) == "git  log    " + LOG_OPTIONS
  {
  }

  /** `add_author` appends and touches nothing else; each date or repository
      setter overwrites its own field only, and the last call wins. */
  lemma SettersFrame(q: GitLog, a: string, x: Option<string>, y: Option<string>)
    ensures AddAuthor(q, a) == GitLog(q.repository, q.authors + [a], q.startDate, q.endDate)
    ensures SetStartDate(q, x) == GitLog(q.repository, q.authors, x, q.endDate)
    ensures SetEndDate(q, x) == GitLog(q.repository, q.authors, q.startDate, x)
    ensures SetRepository(q, x) == GitLog(x, q.authors, q.startDate, q.endDate)
    ensures SetStartDate(SetStartDate(q, x), y) == SetStartDate(q, y)
    ensures SetEndDate(SetEndDate(q, x), y) == SetEndDate(q, y)
    ensures SetRepository(SetRepository(q, x), y) == SetRepository(q, y)
  {
  }

  /** The author segment of a concatenation is the concatenation of the
      segments: one ` --author <a>` per author, in insertion order. */
  lemma {:induction false} AuthorSegmentAppend(xs: seq<string>, ys: seq<string>)
    ensures AuthorSegment(xs + ys) == AuthorSegment(xs) + AuthorSegment(ys)
    decreases |ys|
  {
    if |ys| > 0 {
      var zs := xs + ys;
      var init, a := ys[..|ys| - 1], ys[|ys| - 1];
      assert zs[..|zs| - 1] == xs + init;
      assert zs[|zs| - 1] == a;
      AuthorSegmentAppend(xs, init);
      var tail := " " + Spaced(AUTHOR_FLAG, a);
      assert AuthorSegment(zs) == AuthorSegment(xs + init) + tail;
      assert AuthorSegment(ys) == AuthorSegment(init) + tail;
    } else {
      assert xs + ys == xs;
    }
  }

  /** One author gives exactly ` --author <a>`, the author inserted verbatim. */
  lemma AuthorSegmentSingle(a: string)
    ensures AuthorSegment([a]) == " --author " + a
  {
    assert [a][..0] == [];
  }

  /** An empty value renders like an unset one. */
  lemma EmptyValueIsUnset(q: GitLog)
    ensures BuildCommand(SetStartDate(q, Some(""))) == BuildCommand(SetStartDate(q, None))
    ensures BuildCommand(SetEndDate(q, Some(""))) == BuildCommand(SetEndDate(q, None))
    ensures BuildCommand(SetRepository(q, Some(""))) == BuildCommand(SetRepository(q, None))
  {
  }

  /** The arguments a flag contributes when passed as separate arguments. */
  function FlagArgs(flag: string, value: Option<string>): (r: seq<string>)
    ensures Truthy(value) ==> r == [flag, value.value]
    ensures !Truthy(value) ==> r == []
  {
    if Truthy(value) then [flag, value.value] else []
  }

  /** `--author` and the author, as two arguments, for each author in turn. */
  function AuthorArgs(authors: seq<string>): (r: seq<string>)
    ensures |r| == 2 * |authors|
    ensures forall i :: 0 <= i < |authors| ==> r[2 * i] == AUTHOR_FLAG && r[2 * i + 1] == authors[i]
    decreases |authors|
  {
    if |authors| == 0 then []
    else AuthorArgs(authors[..|authors| - 1]) + [AUTHOR_FLAG, authors[|authors| - 1]]
  }

  /** The intended invocation as an argument list: each value is one argument,
      whatever characters it holds. */
  function Arguments(q: GitLog): (r: seq<string>)
    ensures var k := |FlagArgs(REPOSITORY_FLAG, q.repository)| + 2;
      && k + 2 * |q.authors| + 4 <= |r|
      && r[0] == GIT && r[1..k - 1] == FlagArgs(REPOSITORY_FLAG, q.repository) && r[k - 1] == LOG
      && r[k..k + 2 * |q.authors|] == AuthorArgs(q.authors)
      && r[k + 2 * |q.authors|..|r| - 4] == FlagArgs(SINCE_FLAG, q.startDate) + FlagArgs(UNTIL_FLAG, q.endDate)
      && r[|r| - 4..] == LOG_OPTION_ARGS
  {
    var repository, authors := FlagArgs(REPOSITORY_FLAG, q.repository), AuthorArgs(q.authors);
    var since, until := FlagArgs(SINCE_FLAG, q.startDate), FlagArgs(UNTIL_FLAG, q.endDate);
    Layout(GIT, repository, LOG, authors, since, until, LOG_OPTION_ARGS);
    [GIT] + (repository + ([LOG] + (authors + (since + (until + LOG_OPTION_ARGS)))))
  }

  /** Splitting the option string gives back its four arguments. */
  lemma LogOptionsWords()
    ensures Words(LOG_OPTIONS) == LOG_OPTION_ARGS
  {
    var a := LOG_OPTION_ARGS;
    assert forall i :: 0 <= i < |a| ==> IsWord(a[i]);
    WordsOfJoin(a);
  }

  /** The option string, spelled out. */
  lemma LogOptionsText()
    ensures LOG_OPTIONS == "--date iso --date-order --branches"
  {
    var a := LOG_OPTION_ARGS;
    assert Join(a[3..]) == "--branches";
  }

  /** The fixed words of the command are single arguments on one line. */
  lemma FixedWords()
    ensures IsWord(GIT) && IsWord(LOG) && IsWord(REPOSITORY_FLAG)
    ensures IsWord(AUTHOR_FLAG) && IsWord(SINCE_FLAG) && IsWord(UNTIL_FLAG)
    ensures SingleLine(GIT) && SingleLine(LOG) && SingleLine(REPOSITORY_FLAG)
    ensures SingleLine(AUTHOR_FLAG) && SingleLine(SINCE_FLAG) && SingleLine(UNTIL_FLAG)
    ensures SingleLine("")
  {
  }

  /** The shape of the rendered command: the fixed words around whatever
      the four segments and the options split into. */
  lemma CommandShape(r: string, a: string, s: string, u: string, o: string)
    ensures Words(Spaced(GIT, Spaced(r, Spaced(LOG, Spaced(a, Spaced(s, Spaced(u, o)))))))
         == [GIT] + (Words(r) + ([LOG] + (Words(a) + (Words(s) + (Words(u) + Words(o))))))
  {
    FixedWords();
    var t1 := Spaced(u, o);
    WordsOfSpaced(u, o);
    var t2 := Spaced(s, t1);
    WordsOfSpaced(s, t1);
    var t3 := Spaced(a, t2);
    WordsOfSpaced(a, t2);
    var t4 := Spaced(LOG, t3);
    WordsCons(LOG, t3);
    var t5 := Spaced(r, t4);
    WordsOfSpaced(r, t4);
    WordsCons(GIT, t5);
  }

  /** The arguments a flag segment splits into at blanks: the flag, then
      however many words the value holds. */
  function ShellFlagArgs(flag: string, value: Option<string>): seq<string>
  {
    if Truthy(value) then [flag] + Words(value.value) else []
  }

  /** The same for the author segment: `--author`, then the words of each author. */
  function ShellAuthorArgs(authors: seq<string>): seq<string>
    decreases |authors|
  {
    if |authors| == 0 then []
    else ShellAuthorArgs(authors[..|authors| - 1]) + ([AUTHOR_FLAG] + Words(authors[|authors| - 1]))
  }

  /** The arguments git receives from the built command: the intended
      invocation with every value replaced by the words it splits into. */
  function ShellArguments(q: GitLog): seq<string>
  {
    var options := ShellFlagArgs(SINCE_FLAG, q.startDate) + (ShellFlagArgs(UNTIL_FLAG, q.endDate) + LOG_OPTION_ARGS);
    var filters := ShellAuthorArgs(q.authors) + options;
    [GIT] + (ShellFlagArgs(REPOSITORY_FLAG, q.repository) + ([LOG] + filters))
  }

  /** A flag segment splits into the flag and the words of its value. */
  lemma ShellFlagWords(flag: string, value: Option<string>)
    requires IsWord(flag)
    ensures Words(FlagSegment(flag, value)) == ShellFlagArgs(flag, value)
  {
    WordsOfWord("");
    if Truthy(value) {
      WordsCons(flag, value.value);
    }
  }

  /** The author segment splits into `--author` and the words of each author. */
  lemma {:induction false} ShellAuthorWords(authors: seq<string>)
    ensures Words(AuthorSegment(authors)) == ShellAuthorArgs(authors)
    decreases |authors|
  {
    WordsOfWord("");
    if |authors| > 0 {
      var init, a := authors[..|authors| - 1], authors[|authors| - 1];
      ShellAuthorWords(init);
      WordsOfSpaced(AuthorSegment(init), Spaced(AUTHOR_FLAG, a));
      FixedWords();
      WordsCons(AUTHOR_FLAG, a);
    }
  }

  /** Split at blanks, the built command gives the shell arguments. */
  lemma SplitCommand(q: GitLog)
    ensures Words(BuildCommand(q)) == ShellArguments(q)
  {
    CommandShape(FlagSegment(REPOSITORY_FLAG, q.repository), AuthorSegment(q.authors),
      FlagSegment(SINCE_FLAG, q.startDate), FlagSegment(UNTIL_FLAG, q.endDate), LOG_OPTIONS);
    FixedWords();
    ShellFlagWords(REPOSITORY_FLAG, q.repository);
    ShellFlagWords(SINCE_FLAG, q.startDate);
    ShellFlagWords(UNTIL_FLAG, q.endDate);
    ShellAuthorWords(q.authors);
    LogOptionsWords();
  }

  /** A value that renders without a newline: unset, empty, or one line. */
  predicate OneLine(value: Option<string>)
  {
    !Truthy(value) || SingleLine(value.value)
  }

  /** No value of `q` holds a newline. */
  predicate SingleLineQuery(q: GitLog)
  {
    && OneLine(q.repository) && OneLine(q.startDate) && OneLine(q.endDate)
    && forall i :: 0 <= i < |q.authors| ==> SingleLine(q.authors[i])
  }

  /** A piece of text the shell passes on as one argument: a word on one line. */
  predicate Intact(w: string)
  {
    IsWord(w) && SingleLine(w)
  }

  /** A value that splicing leaves intact: unset, empty, or a single word. */
  predicate Splices(value: Option<string>)
  {
    !Truthy(value) || Intact(value.value)
  }

  /** Every value of `q` splices intact. */
  predicate PlainQuery(q: GitLog)
  {
    && Splices(q.repository) && Splices(q.startDate) && Splices(q.endDate)
    && forall i :: 0 <= i < |q.authors| ==> Intact(q.authors[i])
  }

  /** The author segment is one line exactly when every author is. */
  lemma {:induction false} AuthorSegmentSingleLine(authors: seq<string>)
    ensures SingleLine(AuthorSegment(authors)) <==> forall i :: 0 <= i < |authors| ==> SingleLine(authors[i])
    decreases |authors|
  {
    if |authors| > 0 {
      var init := authors[..|authors| - 1];
      AuthorSegmentSingleLine(init);
      assert forall i :: 0 <= i < |init| ==> init[i] == authors[i];
      FixedWords();
    }
  }

  /** The option string is one line. */
  lemma LogOptionsSingleLine()
    ensures SingleLine(LOG_OPTIONS)
  {
    var a := LOG_OPTION_ARGS;
    assert forall i :: 0 <= i < |a| ==> SingleLine(a[i]);
    JoinSingleLine(a);
  }

  /** The built command is one shell command exactly when no value holds a
      newline; otherwise the shell runs the text after the newline as a
      command of its own. */
  lemma BuildCommandSingleLine(q: GitLog)
    ensures SingleLine(BuildCommand(q)) <==> SingleLineQuery(q)
  {
    FixedWords();
    LogOptionsSingleLine();
    AuthorSegmentSingleLine(q.authors);
  }

  /** For every query without a newline, git receives the shell arguments. */
  lemma BuildCommandWords(q: GitLog)
    requires SingleLineQuery(q)
    ensures Command(BuildCommand(q)) == ShellArguments(q)
  {
    BuildCommandSingleLine(q);
    SplitCommand(q);
  }

  /** A value that splices intact gives the intended flag arguments. */
  lemma ShellFlagArgsPlain(flag: string, value: Option<string>)
    requires Splices(value)
    ensures ShellFlagArgs(flag, value) == FlagArgs(flag, value)
  {
    if Truthy(value) {
      WordsOfWord(value.value);
    }
  }

  /** Single-word authors give the intended author arguments. */
  lemma {:induction false} ShellAuthorArgsPlain(authors: seq<string>)
    requires forall i :: 0 <= i < |authors| ==> Intact(authors[i])
    ensures ShellAuthorArgs(authors) == AuthorArgs(authors)
    decreases |authors|
  {
    if |authors| > 0 {
      var init, a := authors[..|authors| - 1], authors[|authors| - 1];
      assert forall i :: 0 <= i < |init| ==> init[i] == authors[i];
      ShellAuthorArgsPlain(init);
      WordsOfWord(a);
    }
  }

  /** When every value is a single word on one line (or empty or unset), git
      receives exactly the intended arguments. */
  lemma CommandWords(q: GitLog)
    requires PlainQuery(q)
    ensures Command(BuildCommand(q)) == Arguments(q)
  {
    BuildCommandWords(q);
    ShellFlagArgsPlain(REPOSITORY_FLAG, q.repository);
    ShellFlagArgsPlain(SINCE_FLAG, q.startDate);
    ShellFlagArgsPlain(UNTIL_FLAG, q.endDate);
    ShellAuthorArgsPlain(q.authors);
  }

  /** The arguments git receives for a query whose one author is two words. */
  lemma TwoWordAuthorShellArguments(first: string, last: string)
    requires IsWord(first) && IsWord(last)
    ensures var q := AddAuthor(NewGitLog(), Spaced(first, last));
      ShellArguments(q) == [GIT, LOG] + [AUTHOR_FLAG, first, last] + LOG_OPTION_ARGS
  {
    var author := Spaced(first, last);
    var q := AddAuthor(NewGitLog(), author);
    assert q.authors == [author] && q.authors[..0] == [];
    WordsCons(first, last);
    WordsOfWord(last);
    var a := ShellAuthorArgs(q.authors);
    assert a == ShellAuthorArgs([]) + ([AUTHOR_FLAG] + Words(author));
    assert Words(author) == [first] + [last];
    assert a == [AUTHOR_FLAG] + ([first] + [last]);
    Triple(AUTHOR_FLAG, first, last);
    assert ShellArguments(q) == [GIT] + ([] + ([LOG] + (a + ([] + ([] + LOG_OPTION_ARGS)))));
    LayoutWithoutFlags(GIT, [], LOG, a, [], [], LOG_OPTION_ARGS);
  }

  /** The intended arguments for a query with one author and nothing else. */
  lemma OneAuthorArguments(author: string)
    ensures Arguments(AddAuthor(NewGitLog(), author)) == [GIT, LOG] + [AUTHOR_FLAG, author] + LOG_OPTION_ARGS
  {
    var q := AddAuthor(NewGitLog(), author);
    assert q.authors == [author] && q.authors[..0] == [];
    var a := AuthorArgs(q.authors);
    assert a == [AUTHOR_FLAG, author];
    assert Arguments(q) == [GIT] + ([] + ([LOG] + (a + ([] + ([] + LOG_OPTION_ARGS)))));
    LayoutWithoutFlags(GIT, [], LOG, a, [], [], LOG_OPTION_ARGS);
  }

  /** An author made of two words with a space between ("Jane Doe") reaches git
      as "--author Jane" and a stray "Doe", one argument more than the intended
      invocation, which passes the author as one argument. */
  lemma AuthorWithSpaceSplits(first: string, last: string)
    requires Intact(first) && Intact(last)
    ensures var q := AddAuthor(NewGitLog(), Spaced(first, last));
      && Command(BuildCommand(q)) == [GIT, LOG] + [AUTHOR_FLAG, first, last] + LOG_OPTION_ARGS
      && Arguments(q) == [GIT, LOG] + [AUTHOR_FLAG, Spaced(first, last)] + LOG_OPTION_ARGS
  {
    var q := AddAuthor(NewGitLog(), Spaced(first, last));
    TwoWordAuthorShellArguments(first, last);
    OneAuthorArguments(Spaced(first, last));
    assert q.authors == [Spaced(first, last)];
    assert SingleLineQuery(q);
    BuildCommandWords(q);
  }

  /** The first line of the command built for one author whose name holds a
      newline: everything up to that newline, and nothing after it. */
  lemma NewlineAuthorFirstLine(first: string, rest: string)
    requires SingleLine(first)
    ensures var q := AddAuthor(NewGitLog(), first + "\n" + rest);
      FirstLine(BuildCommand(q)) == Spaced(GIT, Spaced("", Spaced(LOG, Spaced("", Spaced(AUTHOR_FLAG, first)))))
  {
    var v := first + "\n" + rest;
    var q := AddAuthor(NewGitLog(), v);
    assert q.authors == [v] && q.authors[..0] == [];
    var a := AuthorSegment(q.authors);
    assert a == Spaced("", Spaced(AUTHOR_FLAG, v));
    var t := Spaced("", Spaced("", LOG_OPTIONS));
    assert BuildCommand(q) == Spaced(GIT, Spaced("", Spaced(LOG, Spaced(a, t))));
    FixedWords();
    FirstLineBreak(first, rest);
    FirstLineSpaced(AUTHOR_FLAG, v);
    FirstLineSpaced("", Spaced(AUTHOR_FLAG, v));
    assert v[|first|] == '\n';
    assert !SingleLine(a);
    FirstLineSpacedCut(a, t);
    FirstLineSpaced(LOG, Spaced(a, t));
    FirstLineSpaced("", Spaced(LOG, Spaced(a, t)));
    FirstLineSpaced(GIT, Spaced("", Spaced(LOG, Spaced(a, t))));
  }

  /** The words of that first line: `git log --author <first>`. */
  lemma NewlineAuthorWords(first: string)
    requires IsWord(first)
    ensures Words(Spaced(GIT, Spaced("", Spaced(LOG, Spaced("", Spaced(AUTHOR_FLAG, first))))))
         == [GIT, LOG, AUTHOR_FLAG, first]
  {
    FixedWords();
    WordsOfWord("");
    WordsOfWord(first);
    WordsCons(AUTHOR_FLAG, first);
    var t := Spaced("", Spaced(AUTHOR_FLAG, first));
    WordsOfSpaced("", Spaced(AUTHOR_FLAG, first));
    WordsCons(LOG, t);
    WordsOfSpaced("", Spaced(LOG, t));
    WordsCons(GIT, Spaced("", Spaced(LOG, t)));
    Quad(GIT, LOG, AUTHOR_FLAG, first, [], []);
  }

  /** An author holding a newline ("Jane" newline "rm x") ends the git command:
      git receives `--author Jane` without the log options, and the text after
      the newline is a second command line. The intended invocation passes the
      whole author as one argument. */
  lemma AuthorWithNewlineEndsCommand(first: string, rest: string)
    requires Intact(first)
    ensures var q := AddAuthor(NewGitLog(), first + "\n" + rest);
      && Command(BuildCommand(q)) == [GIT, LOG, AUTHOR_FLAG, first]
      && !SingleLine(BuildCommand(q))
      && Arguments(q) == [GIT, LOG] + [AUTHOR_FLAG, first + "\n" + rest] + LOG_OPTION_ARGS
  {
    var v := first + "\n" + rest;
    var q := AddAuthor(NewGitLog(), v);
    NewlineAuthorFirstLine(first, rest);
    NewlineAuthorWords(first);
    OneAuthorArguments(v);
    assert q.authors == [v] && v[|first|] == '\n';
    assert !SingleLineQuery(q);
    BuildCommandSingleLine(q);
  }
}
