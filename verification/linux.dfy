/** Account provisioning for the Linux course (src/handler/linux.rs): the
    permission guards in front of the remote shell command and the Forgejo
    calls, the quoting of the SSH key, and the generated passwords. The
    command itself, the HTTP client and the random generator are outside
    the model: their outcomes are parameters. */
module Linux {
  import opened Wrappers
  import opened Sessions
  import Config

  // ---------------------------------------------------------------------
  // Quoting the SSH key

  /** The key as embedded in the command: every `"` becomes `\"`. */
  function EscapeQuotes(k: string): (r: string)
    ensures |r| >= |k|
    ensures '"' !in k ==> r == k
    ensures forall i :: 0 <= i < |r| && r[i] == '"' ==> 0 < i && r[i - 1] == '\\'
    ensures |r| > 0 ==> r[0] != '"'
  {
    if |k| == 0 then ""
    else if k[0] == '"' then "\\\"" + EscapeQuotes(k[1..])
    else [k[0]] + EscapeQuotes(k[1..])
  }

  /** Reads `\"` back as `"` and every other character as itself: the
      inverse used to show that escaping is injective. */
  function UnescapeQuotes(r: string): (k: string)
    ensures |k| <= |r|
  {
    if |r| == 0 then ""
    else if |r| >= 2 && r[0] == '\\' && r[1] == '"' then "\"" + UnescapeQuotes(r[2..])
    else [r[0]] + UnescapeQuotes(r[1..])
  }

  /** Escaping loses nothing: undoing it gives the key back. */
  lemma {:induction false} EscapeRoundTrip(k: string)
    ensures UnescapeQuotes(EscapeQuotes(k)) == k
  {
    if |k| > 0 {
      var rest := EscapeQuotes(k[1..]);
      EscapeRoundTrip(k[1..]);
      if k[0] == '"' {
        assert EscapeQuotes(k) == "\\\"" + rest;
        assert ("\\\"" + rest)[2..] == rest;
      } else {
        assert EscapeQuotes(k) == [k[0]] + rest;
        assert ([k[0]] + rest)[1..] == rest;
        if k[0] == '\\' && |rest| > 0 {
          assert rest[0] != '"';
        }
      }
    }
  }

  /** Escaping keeps every `'` of the key. */
  lemma {:induction false} EscapeKeepsApostrophes(k: string)
    ensures multiset(EscapeQuotes(k))['\''] == multiset(k)['\'']
  {
    if |k| > 0 {
      EscapeKeepsApostrophes(k[1..]);
      assert k == [k[0]] + k[1..];
    }
  }

  /** Two different keys never give the same escaped text. */
  lemma EscapeInjective(k1: string, k2: string)
    requires EscapeQuotes(k1) == EscapeQuotes(k2)
    ensures k1 == k2
  {
    EscapeRoundTrip(k1);
    EscapeRoundTrip(k2);
  }

  // ---------------------------------------------------------------------
  // The local shell's reading of the command

  /** The position of the first `c` in `w`, or `|w|` when there is none. */
  function IndexOf(w: string, c: char): (j: nat)
    ensures j <= |w| && c !in w[..j]
    ensures j < |w| ==> w[j] == c
  {
    if |w| == 0 then 0
    else if w[0] == c then 0
    else
      var j := 1 + IndexOf(w[1..], c);
      assert w[..j] == [w[0]] + w[1..][..j - 1];
      j
  }

  /** A position holding `c` with no `c` before it is the first one. */
  lemma IndexOfIs(w: string, c: char, j: int)
    requires 0 <= j <= |w| && c !in w[..j] && (j < |w| ==> w[j] == c)
    ensures IndexOf(w, c) == j
  {
  }

  /** Characters that end an unquoted word or start an expansion, a
      redirection, a pattern or a comment (section 2.2 of the POSIX Shell
      Command Language and the characters it refers to). */
  predicate Special(c: char) {
    c in {' ', '\t', '\n', ';', '&', '|', '<', '>', '(', ')', '$', '`', '"', '*', '?', '[', '#', '~'}
  }

  /** Quote removal on one shell word made of single-quoted runs,
      backslash-escaped characters and plain characters: the text the
      command receives. None when the word does not stand as one literal
      argument: an unclosed quote, a trailing backslash, or an unquoted
      special character. A single-quoted run ends at the next `'`, and a
      backslash before a newline removes both. */
  function ShellWord(w: string): (r: Option<string>)
    decreases |w|
  {
    if |w| == 0 then Some("")
    else if w[0] == '\'' then
      var j := 1 + IndexOf(w[1..], '\'');
      if j == |w| then None
      else match ShellWord(w[j + 1..])
        case None => None
        case Some(rest) => Some(w[1..j] + rest)
    else if w[0] == '\\' then
      if |w| < 2 then None
      else match ShellWord(w[2..])
        case None => None
        case Some(rest) => Some(if w[1] == '\n' then rest else [w[1]] + rest)
    else if Special(w[0]) then None
    else match ShellWord(w[1..])
      case None => None
      case Some(rest) => Some([w[0]] + rest)
  }

  /** Reading a word that opens with a quoted run closing at `j`. */
  lemma ReadQuoted(w: string, j: int)
    requires 1 <= j < |w| && w[0] == '\'' && w[j] == '\'' && '\'' !in w[1..j]
    ensures ShellWord(w) == if ShellWord(w[j + 1..]).Some? then Some(w[1..j] + ShellWord(w[j + 1..]).value) else None
  {
    assert w[1..][..j - 1] == w[1..j];
    IndexOfIs(w[1..], '\'', j - 1);
  }

  /** Reading a word that opens with a backslash-escaped character. */
  lemma ReadEscaped(w: string)
    requires |w| >= 2 && w[0] == '\\' && w[1] != '\n'
    ensures ShellWord(w) == if ShellWord(w[2..]).Some? then Some([w[1]] + ShellWord(w[2..]).value) else None
  {
  }

  /** The count step of `ShellWordShrinks` for a word opening with a quoted
      run closing at `j`: both quotes are dropped. */
  lemma ShrinkQuoted(w: string, j: int, o: string, rest: string)
    requires 1 <= j < |w| && w[0] == '\'' && w[j] == '\'' && '\'' !in w[1..j]
    requires o == w[1..j] + rest && |rest| + multiset(w[j + 1..])['\''] <= |w[j + 1..]|
    ensures |o| + multiset(w)['\''] <= |w|
  {
    assert w == [w[0]] + w[1..j] + [w[j]] + w[j + 1..];
    assert multiset(w[1..j])['\''] == 0;
  }

  /** The count step for a word opening with a backslash: at most one `'`
      is kept, and it costs its backslash. */
  lemma ShrinkEscaped(w: string, o: string, rest: string)
    requires |w| >= 2 && w[0] == '\\' && |o| <= 1 + |rest| && |rest| + multiset(w[2..])['\''] <= |w[2..]|
    ensures |o| + multiset(w)['\''] <= |w|
  {
    assert w == [w[0], w[1]] + w[2..];
  }

  /** The count step for a word opening with a plain character. */
  lemma ShrinkPlain(w: string, o: string, rest: string)
    requires |w| >= 1 && w[0] != '\'' && o == [w[0]] + rest
    requires |rest| + multiset(w[1..])['\''] <= |w[1..]|
    ensures |o| + multiset(w)['\''] <= |w|
  {
    assert w == [w[0]] + w[1..];
  }

  /** Every `'` of a word is dropped by quote removal or costs its
      backslash, so the text read is shorter than the word by at least the
      number of `'` in it. */
  lemma {:induction false} ShellWordShrinks(w: string, o: string)
    requires ShellWord(w) == Some(o)
    ensures |o| + multiset(w)['\''] <= |w|
    decreases |w|
  {
    if |w| > 0 {
      if w[0] == '\'' {
        var j := 1 + IndexOf(w[1..], '\'');
        assert w[1..j] == w[1..][..j - 1];
        var rest := ShellWord(w[j + 1..]).value;
        ShellWordShrinks(w[j + 1..], rest);
        ShrinkQuoted(w, j, o, rest);
      } else if w[0] == '\\' {
        var rest := ShellWord(w[2..]).value;
        ShellWordShrinks(w[2..], rest);
        ShrinkEscaped(w, o, rest);
      } else {
        var rest := ShellWord(w[1..]).value;
        ShellWordShrinks(w[1..], rest);
        ShrinkPlain(w, o, rest);
      }
    }
  }

  /** A text between single quotes reaches the command unchanged exactly
      when it holds no `'` of its own. */
  lemma {:induction false} SingleQuotedIntact(x: string)
    ensures ShellWord("'" + x + "'") == Some(x) <==> '\'' !in x
  {
    var w := "'" + x + "'";
    assert w[1..|x| + 1] == x;
    if '\'' !in x {
      ReadQuoted(w, |x| + 1);
      assert w[|x| + 2..] == "";
      assert ShellWord(w[|x| + 2..]) == Some("");
      assert x + "" == x;
    } else if ShellWord(w).Some? {
      ShellWordShrinks(w, ShellWord(w).value);
      assert w == "'" + x + "'";
      assert multiset(w)['\''] == multiset(x)['\''] + 2;
      assert multiset(x)['\''] > 0;
    }
  }

  /** Single-quotes `x` for the shell: each `'` inside it becomes `'\''`,
      which closes the quote, adds an escaped `'` and opens a new one. */
  function ShellQuote(x: string): (w: string)
    ensures '\'' !in x ==> w == "'" + x + "'"
    decreases |x|
  {
    var j := IndexOf(x, '\'');
    if j == |x| then
      assert x[..j] == x;
      "'" + x + "'"
    else "'" + x[..j] + "'\\'" + ShellQuote(x[j + 1..])
  }

  /** A quoted run without `'`, then `'\''`, then a word: the run, a `'`
      and what the word reads as. */
  lemma QuotedPieceReads(a: string, tail: string, rest: string)
    requires '\'' !in a && ShellWord(tail) == Some(rest)
    ensures ShellWord("'" + a + "'\\'" + tail) == Some(a + "'" + rest)
  {
    var w := "'" + a + "'\\'" + tail;
    var e := "\\'" + tail;
    assert w[|a| + 2..] == e;
    assert e[2..] == tail;
    ReadEscaped(e);
    assert ShellWord(e) == Some("'" + rest);
    assert w[1..|a| + 1] == a;
    ReadQuoted(w, |a| + 1);
    assert a + ("'" + rest) == a + "'" + rest;
  }

  /** A sequence is its prefix, the element at `i` and its suffix. */
  lemma SplitAt<T>(s: seq<T>, i: int)
    requires 0 <= i < |s|
    ensures s == s[..i] + [s[i]] + s[i + 1..]
  {
  }

  /** Quoting splits at the first `'` of `x`: the run before it, `'\''`,
      and the quoted rest. */
  lemma QuoteSplits(x: string, j: nat)
    requires j == IndexOf(x, '\'') && j < |x|
    ensures '\'' !in x[..j] && x == x[..j] + "'" + x[j + 1..]
    ensures ShellQuote(x) == "'" + x[..j] + "'\\'" + ShellQuote(x[j + 1..])
  {
    SplitAt(x, j);
  }

  /** Whatever `x` holds, the quoted word reads back as `x`. */
  lemma {:induction false} ShellQuoteRoundTrip(x: string)
    ensures ShellWord(ShellQuote(x)) == Some(x)
    decreases |x|
  {
    var j := IndexOf(x, '\'');
    if j == |x| {
      assert x[..j] == x;
      SingleQuotedIntact(x);
    } else {
      ShellQuoteRoundTrip(x[j + 1..]);
      QuoteSplits(x, j);
      QuotedPieceReads(x[..j], ShellQuote(x[j + 1..]), x[j + 1..]);
    }
  }

  /** Where the remote account script lives and who runs it. */
  datatype Remote = Remote(user: string, host: string)

  /** The command run on the remote host: the account script with the user
      id and the escaped key as its two double-quoted arguments. */
  function RemoteCommand(cfg: Remote, uid: string, key: string): string {
    "/home/" + cfg.user + "/manage_user.sh \"" + uid + "\" \"" + EscapeQuotes(key) + "\""
  }

  /** `ssh -t user@host `, the part of the command line before the remote
      command. */
  function SshPrefix(cfg: Remote): string {
    "ssh -t " + cfg.user + "@" + cfg.host + " "
  }

  /** The command line `add_linux_user` builds AS WRITTEN: the remote
      command between single quotes, with no care for a `'` inside it. The
      shell hands `ssh` the remote command unchanged iff it holds no `'`. */
  function SshCommandAsWritten(cfg: Remote, uid: string, key: string): (c: string)
    ensures |SshPrefix(cfg)| <= |c| && c[..|SshPrefix(cfg)|] == SshPrefix(cfg)
    ensures ShellWord(c[|SshPrefix(cfg)|..]) == Some(RemoteCommand(cfg, uid, key))
      <==> '\'' !in RemoteCommand(cfg, uid, key)
  {
    QuotedAfterPrefix(SshPrefix(cfg), RemoteCommand(cfg, uid, key));
    SshPrefix(cfg) + "'" + RemoteCommand(cfg, uid, key) + "'"
  }

  /** A prefix followed by a single-quoted text: the shell word after the
      prefix reads back as the text iff the text holds no `'`. */
  lemma QuotedAfterPrefix(p: string, x: string)
    ensures var c := p + "'" + x + "'";
      && |p| <= |c| && c[..|p|] == p
      && (ShellWord(c[|p|..]) == Some(x) <==> '\'' !in x)
  {
    var c := p + "'" + x + "'";
    assert c[..|p|] == p;
    assert c[|p|..] == "'" + x + "'";
    SingleQuotedIntact(x);
  }

  /** A key holding a `'` ends the single-quoted argument early: the local
      shell no longer hands the remote command to `ssh` as written. */
  lemma QuoteInKeyBreaksCommandAsWritten(cfg: Remote, uid: string, key: string)
    requires '\'' in key
    ensures var c := SshCommandAsWritten(cfg, uid, key);
      var p := SshPrefix(cfg);
      c[..|p|] == p && ShellWord(c[|p|..]) != Some(RemoteCommand(cfg, uid, key))
  {
    var x := RemoteCommand(cfg, uid, key);
    EscapeKeepsApostrophes(key);
    assert x == "/home/" + cfg.user + "/manage_user.sh \"" + uid + "\" \"" + EscapeQuotes(key) + "\"";
    assert '\'' in EscapeQuotes(key);
  }

  /** The corrected command line: the remote command quoted for the shell,
      so a `'` anywhere in it survives. */
  function SshCommand(cfg: Remote, uid: string, key: string): (c: string)
    ensures '\'' !in RemoteCommand(cfg, uid, key) ==> c == SshCommandAsWritten(cfg, uid, key)
  {
    SshPrefix(cfg) + ShellQuote(RemoteCommand(cfg, uid, key))
  }

  /** How the spawned command ended: it exited with success or failure, or
      could not be started at all. */
  datatype CommandOutcome = Exited(success: bool) | SpawnFailed

  /** The status, and the command line when one is run. */
  datatype LinuxReply = LinuxReply(status: Status, command: Option<string>)

  /** The guard of `add_linux_user`: a missing or unreadable id counts as
      empty and a missing permission as 0, and both must pass. */
  predicate MayRunCommand(s: Session) {
    UserIdOrEmpty(s) != "" && Config.Holds(PermissionOrZero(s), Config.LINUX)
  }

  /** `add_linux_user`: a caller failing the guard is Unauthorized and
      nothing runs. Otherwise the command runs and its exit decides between
      Ok and InternalServerError. */
  function AddLinuxUser(s: Session, cfg: Remote, key: string, outcome: CommandOutcome): (r: LinuxReply)
    ensures r.command.Some? <==> MayRunCommand(s)
    ensures r.command.None? ==> r.status == Unauthorized
    ensures r.command.Some? ==> r.command.value == SshCommand(cfg, UserIdOrEmpty(s), key)
    ensures r.command.Some? ==> (r.status == Ok <==> outcome == Exited(true))
    ensures r.command.Some? && r.status != Ok ==> r.status == InternalServerError
  {
    Answer(s, SshCommand(cfg, UserIdOrEmpty(s), key), outcome)
  }

  /** The reply once the command line `cmd` is built: the guard, then the
      exit of the command. */
  function Answer(s: Session, cmd: string, outcome: CommandOutcome): LinuxReply {
    if !MayRunCommand(s) then LinuxReply(Unauthorized, None)
    else if outcome == Exited(true) then LinuxReply(Ok, Some(cmd))
    else LinuxReply(InternalServerError, Some(cmd))
  }

  /** `add_linux_user` AS WRITTEN: the same guard and statuses, but the
      command line quotes the remote command with no care for a `'`, so
      `ssh` receives the remote command unchanged iff it holds none. */
  function AddLinuxUserAsWritten(s: Session, cfg: Remote, key: string, outcome: CommandOutcome): (r: LinuxReply)
    ensures r.command.Some? <==> MayRunCommand(s)
    ensures r.status == AddLinuxUser(s, cfg, key, outcome).status
    ensures r.command.Some? ==> r.command.value == SshCommandAsWritten(cfg, UserIdOrEmpty(s), key)
    ensures r.command.Some? ==>
      (ShellWord(r.command.value[|SshPrefix(cfg)|..]) == Some(RemoteCommand(cfg, UserIdOrEmpty(s), key))
       <==> '\'' !in RemoteCommand(cfg, UserIdOrEmpty(s), key))
    ensures '\'' !in RemoteCommand(cfg, UserIdOrEmpty(s), key) ==> r == AddLinuxUser(s, cfg, key, outcome)
  {
    Answer(s, SshCommandAsWritten(cfg, UserIdOrEmpty(s), key), outcome)
  }

  /** With the corrected quoting, the local shell hands `ssh` exactly the
      remote command, whatever the key holds: the escaped key as the last
      double-quoted argument of the account script. */
  lemma KeyReachesScript(s: Session, cfg: Remote, key: string, outcome: CommandOutcome)
    requires AddLinuxUser(s, cfg, key, outcome).command.Some?
    ensures var c := AddLinuxUser(s, cfg, key, outcome).command.value;
      var p := SshPrefix(cfg);
      && c[..|p|] == p
      && ShellWord(c[|p|..]) == Some(RemoteCommand(cfg, UserIdOrEmpty(s), key))
  {
    var c := AddLinuxUser(s, cfg, key, outcome).command.value;
    var p := SshPrefix(cfg);
    assert c[..|p|] == p;
    assert c[|p|..] == ShellQuote(RemoteCommand(cfg, UserIdOrEmpty(s), key));
    ShellQuoteRoundTrip(RemoteCommand(cfg, UserIdOrEmpty(s), key));
  }

  // ---------------------------------------------------------------------
  // Generated passwords

  /** The alphabet `Alphanumeric` samples from. */
  predicate IsAlphanumeric(c: char) {
    ('A' <= c <= 'Z') || ('a' <= c <= 'z') || ('0' <= c <= '9')
  }

  /** The `k`-th of the 62 alphanumeric characters. */
  function AlphanumericAt(k: nat): (c: char)
    requires k < 62
    ensures IsAlphanumeric(c)
  {
    if k < 26 then ('A' as int + k) as char
    else if k < 52 then ('a' as int + (k - 26)) as char
    else ('0' as int + (k - 52)) as char
  }

  /** The position of an alphanumeric character in that alphabet. */
  function AlphanumericIndex(c: char): (k: nat)
    requires IsAlphanumeric(c)
    ensures k < 62 && AlphanumericAt(k) == c
  {
    if 'A' <= c <= 'Z' then c as int - 'A' as int
    else if 'a' <= c <= 'z' then 26 + (c as int - 'a' as int)
    else 52 + (c as int - '0' as int)
  }

  /** The length of every generated password. */
  const PASSWORD_LENGTH: nat := 16

  /** `generate_password(n)`: the first `n` samples of an alphanumeric
      stream; `draw(i)` is the generator's `i`-th raw sample. */
  function GeneratePassword(n: nat, draw: nat -> nat): (w: string)
    ensures |w| == n
    ensures forall i :: 0 <= i < |w| ==> IsAlphanumeric(w[i])
  {
    var w := seq(n, i requires 0 <= i => AlphanumericAt(draw(i) % 62));
    assert forall i :: 0 <= i < n ==> w[i] == AlphanumericAt(draw(i) % 62);
    w
  }

  /** Every alphanumeric string of length `n` is a possible password: the
      alphabet is exactly the 62 alphanumerics and nothing narrows it. */
  lemma EveryAlphanumericWordPossible(w: string)
    requires forall i :: 0 <= i < |w| ==> IsAlphanumeric(w[i])
    ensures exists draw: nat -> nat :: GeneratePassword(|w|, draw) == w
  {
    var draw := (i: nat) => if i < |w| then AlphanumericIndex(w[i]) else 0;
    var g := GeneratePassword(|w|, draw);
    forall i | 0 <= i < |w| ensures g[i] == w[i] {
      assert draw(i) % 62 == AlphanumericIndex(w[i]);
    }
    assert g == w;
  }

  // ---------------------------------------------------------------------
  // Forgejo accounts

  /** `Ok(Some(id)) if !id.is_empty()` and then the LINUX bit: the id is the
      account name on success; Unauthorized before Forbidden otherwise. */
  function GitGuard(s: Session): (r: Result<string, Status>)
    ensures r.Success? <==> s.userId.Found? && s.userId.value != "" && Config.Holds(PermissionOrZero(s), Config.LINUX)
    ensures r.Success? ==> r.value == s.userId.value
    ensures r.Failure? ==> (r.error == Unauthorized <==> !(s.userId.Found? && s.userId.value != ""))
    ensures r.Failure? ==> r.error in {Unauthorized, Forbidden}
  {
    match s.userId
    case Found(id) =>
      if id == "" then Failure(Unauthorized)
      else if !Config.Holds(PermissionOrZero(s), Config.LINUX) then Failure(Forbidden)
      else Success(id)
    case _ => Failure(Unauthorized)
  }

  /** What Forgejo answered: an HTTP status code, or no answer at all. */
  datatype ForgeOutcome = Answered(code: int) | Unreachable

  /** The request sent to the Forgejo admin API, below the configured base
      URL. Creating an account names it and gives its e-mail address;
      resetting a password sends only the password. */
  datatype ForgeRequest = ForgeRequest(path: string, username: Option<string>, email: Option<string>, password: string)

  /** The status, the request sent (if any) and the password handed back. */
  datatype GitReply = GitReply(status: Status, request: Option<ForgeRequest>, password: Option<string>)

  /** `add_forgejo_user`: only a 201 Created counts as success. */
  function AddForgeUser(s: Session, draw: nat -> nat, res: ForgeOutcome): (r: GitReply)
    ensures GitGuard(s).Failure? ==> r == GitReply(GitGuard(s).error, None, None)
    ensures GitGuard(s).Success? ==> (
      var id := GitGuard(s).value;
      && r.request.Some?
      && r.request.value.path == "/api/v1/admin/users"
      && r.request.value.username == Some(id)
      && r.request.value.email == Some(id + "@stu.pku.edu.cn")
      && |r.request.value.password| == PASSWORD_LENGTH
      && (r.status == Ok <==> res == Answered(201))
      && (r.status != Ok ==> r.status == InternalServerError && r.password.None?)
      && (r.status == Ok ==> r.password == Some(r.request.value.password)))
  {
    match GitGuard(s)
    case Failure(e) => GitReply(e, None, None)
    case Success(id) =>
      var pw := GeneratePassword(PASSWORD_LENGTH, draw);
      var req := ForgeRequest("/api/v1/admin/users", Some(id), Some(id + "@stu.pku.edu.cn"), pw);
      if res == Answered(201) then GitReply(Ok, Some(req), Some(pw))
      else GitReply(InternalServerError, Some(req), None)
  }

  /** `reset_forgejo_password`: any 2xx answer counts as success. */
  function ResetForgePassword(s: Session, draw: nat -> nat, res: ForgeOutcome): (r: GitReply)
    ensures GitGuard(s).Failure? ==> r == GitReply(GitGuard(s).error, None, None)
    ensures GitGuard(s).Success? ==> (
      && r.request.Some?
      && r.request.value.path == "/api/v1/admin/users/" + GitGuard(s).value
      && r.request.value.username.None? && r.request.value.email.None?
      && |r.request.value.password| == PASSWORD_LENGTH
      && (r.status == Ok <==> res.Answered? && 200 <= res.code < 300)
      && (r.status != Ok ==> r.status == InternalServerError && r.password.None?)
      && (r.status == Ok ==> r.password == Some(r.request.value.password)))
  {
    match GitGuard(s)
    case Failure(e) => GitReply(e, None, None)
    case Success(id) =>
      var pw := GeneratePassword(PASSWORD_LENGTH, draw);
      var req := ForgeRequest("/api/v1/admin/users/" + id, None, None, pw);
      if res.Answered? && 200 <= res.code < 300 then GitReply(Ok, Some(req), Some(pw))
      else GitReply(InternalServerError, Some(req), None)
  }

  /** Any password handed back is 16 alphanumeric characters. */
  lemma HandedOutPasswordsAreAlphanumeric(s: Session, draw: nat -> nat, res: ForgeOutcome, reset: bool)
    requires (if reset then ResetForgePassword(s, draw, res) else AddForgeUser(s, draw, res)).password.Some?
    ensures var pw := (if reset then ResetForgePassword(s, draw, res) else AddForgeUser(s, draw, res)).password.value;
      |pw| == 16 && forall i :: 0 <= i < |pw| ==> IsAlphanumeric(pw[i])
  {
  }

  /** A 200 answer is a success for a password reset but a failure for an
      account creation. */
  lemma TwoHundredOnlyResets(s: Session, draw: nat -> nat)
    requires GitGuard(s).Success?
    ensures ResetForgePassword(s, draw, Answered(200)).status == Ok
    ensures AddForgeUser(s, draw, Answered(200)).status == InternalServerError
  {
  }

  /** The two account services refuse a logged-in caller without the LINUX
      bit differently: the shell account with Unauthorized, Forgejo with
      Forbidden. */
  lemma LinuxBitRefusals(s: Session, cfg: Remote, key: string, o: CommandOutcome, draw: nat -> nat, res: ForgeOutcome)
    requires s.userId.Found? && s.userId.value != ""
    requires !Config.Holds(PermissionOrZero(s), Config.LINUX)
    ensures !MayRunCommand(s)
    ensures AddLinuxUser(s, cfg, key, o).status == Unauthorized
    ensures AddForgeUser(s, draw, res).status == Forbidden
    ensures ResetForgePassword(s, draw, res).status == Forbidden
  {
  }
}
