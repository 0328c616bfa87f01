/** scripts/prepare-production-env.js writes a file that the deployment sources with a POSIX
    shell. This module reads such files as sections 2.2 and 2.3 of the POSIX Shell Command
    Language say, and proves what sourcing the prepared file assigns.

    The reader knows comments, assignments and the quoting rules. Whatever would make the
    shell do more than assign (expansions, operators, commands) makes it give up. */
module ShellEnv {

  import opened JsText

  type Env = map<string, string>

  // ----- the shell's side: a reader that takes one character at a time -----

  datatype Quote = Bare | Escaped | Single | Double | DoubleEscaped

  datatype Mode =
    | Start                                          // where a word may begin
    | Comment
    | Name(name: string)
    | Value(key: string, text: string, quote: Quote)
    | GivenUp

  datatype Reader = Reader(env: Env, mode: Mode)

  predicate IsNameStart(c: char) {
    c == '_' || 'a' <= c <= 'z' || 'A' <= c <= 'Z'
  }

  predicate IsNameChar(c: char) {
    IsNameStart(c) || '0' <= c <= '9'
  }

  /** Characters that, unquoted, end the word or mean something else than themselves. */
  predicate IsSpecial(c: char) {
    c in {'$', '`', ';', '&', '|', '<', '>', '(', ')', '~'}
  }

  function StepStart(env: Env, c: char): Reader {
    if c == ' ' || c == '\t' || c == '\n' then Reader(env, Start)
    else if c == '#' then Reader(env, Comment)
    else if IsNameStart(c) then Reader(env, Name([c]))
    else Reader(env, GivenUp)
  }

  /** One character of a value: sections 2.2.1 to 2.2.3. */
  function StepValue(env: Env, key: string, text: string, quote: Quote, c: char): Reader {
    match quote
    case Bare =>
      if c == '\n' || c == ' ' || c == '\t' then Reader(env[key := text], Start)
      else if c == '\\' then Reader(env, Value(key, text, Escaped))
      else if c == '\'' then Reader(env, Value(key, text, Single))
      else if c == '"' then Reader(env, Value(key, text, Double))
      else if IsSpecial(c) then Reader(env, GivenUp)
      else Reader(env, Value(key, text + [c], Bare))
    case Escaped =>
      if c == '\n' then Reader(env, Value(key, text, Bare))
      else Reader(env, Value(key, text + [c], Bare))
    case Single =>
      if c == '\'' then Reader(env, Value(key, text, Bare))
      else Reader(env, Value(key, text + [c], Single))
    case Double =>
      if c == '"' then Reader(env, Value(key, text, Bare))
      else if c == '\\' then Reader(env, Value(key, text, DoubleEscaped))
      else if c == '$' || c == '`' then Reader(env, GivenUp)
      else Reader(env, Value(key, text + [c], Double))
    case DoubleEscaped =>
      if c == '\n' then Reader(env, Value(key, text, Double))
      else if c == '$' || c == '`' || c == '"' || c == '\\' then Reader(env, Value(key, text + [c], Double))
      else Reader(env, Value(key, text + ['\\', c], Double))
  }

  function Step(r: Reader, c: char): Reader {
    match r.mode
    case Start => StepStart(r.env, c)
    case Comment => if c == '\n' then Reader(r.env, Start) else r
    case Name(name) =>
      if c == '=' then Reader(r.env, Value(name, "", Bare))
      else if IsNameChar(c) then Reader(r.env, Name(name + [c]))
      else Reader(r.env, GivenUp)
    case Value(key, text, quote) => StepValue(r.env, key, text, quote, c)
    case GivenUp => r
  }

  function Read(r: Reader, s: string): Reader
    decreases |s|
  {
    if s == "" then r else Read(Step(r, s[0]), s[1..])
  }

  /** The bindings once the input ends; None when it ends inside a quotation or a name,
      or was given up on. */
  function Finish(r: Reader): Option<Env> {
    match r.mode
    case Start => Some(r.env)
    case Comment => Some(r.env)
    case Value(key, text, Bare) => Some(r.env[key := text])
    case _ => None
  }

  /** What sourcing a file assigns; a later assignment overrides an earlier one. */
  function Source(file: string): Option<Env> {
    Finish(Read(Reader(map[], Start), file))
  }

  lemma {:induction false} ReadAppend(r: Reader, s: string, t: string)
    ensures Read(r, s + t) == Read(Read(r, s), t)
    decreases |s|
  {
    if s == "" {
      assert s + t == t;
    } else {
      assert (s + t)[0] == s[0] && (s + t)[1..] == s[1..] + t;
      ReadAppend(Step(r, s[0]), s[1..], t);
    }
  }

  // ----- the script's side -----

  function EscapeQuotes(value: string): string {
    if value == "" then ""
    else (if value[0] == '\'' then "'\\''" else [value[0]]) + EscapeQuotes(value[1..])
  }

  function ShellSingleQuote(value: string): string {
    "'" + EscapeQuotes(value) + "'"
  }

  /** Every quote becomes the four characters that close the quotation, escape a quote and
      open it again, and nothing else changes. */
  lemma {:induction false} QuotesPiecewise(x: string, y: string)
    ensures EscapeQuotes(x + "'" + y) == EscapeQuotes(x) + "'\\''" + EscapeQuotes(y)
    ensures '\'' !in x ==> EscapeQuotes(x) == x
    decreases |x|
  {
    var s := x + "'" + y;
    if x == "" {
      assert s[1..] == y;
    } else {
      assert s[0] == x[0] && s[1..] == x[1..] + "'" + y;
      QuotesPiecewise(x[1..], y);
      assert x == [x[0]] + x[1..];
      var first := if x[0] == '\'' then "'\\''" else [x[0]];
      hide EscapeQuotes;
      var escaped := "'\\''" + EscapeQuotes(y);
      assert first + (EscapeQuotes(x[1..]) + escaped) == first + EscapeQuotes(x[1..]) + escaped;
    }
  }

  /** A managed value: absent and blank ones are both skipped. */
  function Normalized(value: Option<string>): string {
    match value
    case None => ""
    case Some(s) => Trim(s)
  }

  function AppendManagedValue(envFile: string, key: string, value: Option<string>): (r: string)
    ensures envFile <= r
  {
    var normalized := Normalized(value);
    if normalized == "" then envFile
    else envFile + key + "=" + ShellSingleQuote(normalized) + "\n"
  }

  /** Inside a quotation, the script's escapes read back as the quotes they stand for. */
  lemma {:induction false} EscapesRead(env: Env, key: string, text: string, value: string)
    ensures Read(Reader(env, Value(key, text, Single)), EscapeQuotes(value))
            == Reader(env, Value(key, text + value, Single))
    decreases |value|
  {
    if value == "" {
      assert text + value == text;
    } else {
      var c, rest := value[0], value[1..];
      var head := if c == '\'' then "'\\''" else [c];
      ReadAppend(Reader(env, Value(key, text, Single)), head, EscapeQuotes(rest));
      CharacterRead(env, key, text, c);
      EscapesRead(env, key, text + [c], rest);
      assert text + [c] + rest == text + value;
    }
  }

  lemma CharacterRead(env: Env, key: string, text: string, c: char)
    ensures Read(Reader(env, Value(key, text, Single)), if c == '\'' then "'\\''" else [c])
            == Reader(env, Value(key, text + [c], Single))
  {
    var r := Reader(env, Value(key, text, Single));
    if c == '\'' {
      var s := "'\\''";
      assert s[1..] == "\\''" && s[1..][1..] == "''" && s[1..][1..][1..] == "'" && s[1..][1..][1..][1..] == "";
      var r1 := Step(r, s[0]);
      var r2 := Step(r1, s[1]);
      var r3 := Step(r2, s[2]);
      assert Step(r3, s[3]) == Reader(env, Value(key, text + [c], Single));
      assert Read(r, s) == Read(r1, "\\''") == Read(r2, "''") == Read(r3, "'");
    } else {
      assert [c][1..] == "";
      assert Read(r, [c]) == Read(Step(r, c), "");
    }
  }

  /** A shell that reads the quoted form within a word reads exactly the value. */
  lemma QuotedReadsBack(env: Env, key: string, text: string, value: string)
    ensures Read(Reader(env, Value(key, text, Bare)), ShellSingleQuote(value))
            == Reader(env, Value(key, text + value, Bare))
  {
    var r := Reader(env, Value(key, text, Bare));
    var quoted := EscapeQuotes(value);
    ReadAppend(r, "'" + quoted, "'");
    ReadAppend(r, "'", quoted);
    ReadOne(r, '\'');
    EscapesRead(env, key, text, value);
    ReadOne(Reader(env, Value(key, text + value, Single)), '\'');
  }

  lemma ReadOne(r: Reader, c: char)
    ensures Read(r, [c]) == Step(r, c)
  {}

  predicate IsName(key: string) {
    key != "" && IsNameStart(key[0]) && forall c :: c in key ==> IsNameChar(c)
  }

  lemma {:induction false} NameRead(env: Env, name: string, rest: string)
    requires forall c :: c in rest ==> IsNameChar(c)
    ensures Read(Reader(env, Name(name)), rest) == Reader(env, Name(name + rest))
    decreases |rest|
  {
    if rest == "" {
      assert name + rest == name;
    } else {
      assert rest[0] in rest && IsNameChar(rest[0]);
      NameRead(env, name + [rest[0]], rest[1..]);
      assert name + [rest[0]] + rest[1..] == name + rest;
    }
  }

  /** A line the script appends assigns the value, whatever characters it is made of. */
  lemma LineAssigns(env: Env, key: string, value: string)
    requires IsName(key)
    ensures Read(Reader(env, Start), key + "=" + ShellSingleQuote(value) + "\n") == Reader(env[key := value], Start)
  {
    var r, quoted := Reader(env, Start), ShellSingleQuote(value);
    ReadAppend(r, key + "=" + quoted, "\n");
    ReadAppend(r, key + "=", quoted);
    ReadAppend(r, key, "=");
    assert key == [key[0]] + key[1..];
    ReadAppend(r, [key[0]], key[1..]);
    ReadOne(r, key[0]);
    NameRead(env, [key[0]], key[1..]);
    ReadOne(Reader(env, Name(key)), '=');
    QuotedReadsBack(env, key, "", value);
    assert "" + value == value;
    ReadOne(Reader(env, Value(key, value, Bare)), '\n');
  }

  // ----- the whole file -----

  /** Carriage returns before line feeds are dropped. */
  function UnixNewlines(s: string): string {
    if s == "" then ""
    else if |s| > 1 && s[0] == '\r' && s[1] == '\n' then UnixNewlines(s[1..])
    else [s[0]] + UnixNewlines(s[1..])
  }

  /** Each pair becomes a line feed, wherever it stands. */
  lemma {:induction false} NewlinesPiecewise(x: string, y: string)
    ensures UnixNewlines(x + "\r\n" + y) == UnixNewlines(x) + "\n" + UnixNewlines(y)
    decreases |x|
  {
    var s := x + "\r\n" + y;
    if x == "" {
      assert s[1..] == "\n" + y && (s[1..])[1..] == y;
    } else {
      assert s[0] == x[0] && s[1..] == x[1..] + "\r\n" + y;
      assert s[1] == if |x| > 1 then x[1] else '\r';
      NewlinesPiecewise(x[1..], y);
    }
  }

  ghost predicate PairAt(s: string, i: int)
    requires 0 <= i < |s|
  {
    s[i] == '\r' && i + 1 < |s| && s[i + 1] == '\n'
  }

  /** And a text without such pairs stays as it is. */
  lemma {:induction false} NewlinesKept(s: string)
    requires forall i :: 0 <= i < |s| ==> !PairAt(s, i)
    ensures UnixNewlines(s) == s
    decreases |s|
  {
    if s != "" {
      assert !PairAt(s, 0);
      assert forall i | 0 <= i < |s| - 1 :: PairAt(s[1..], i) <==> PairAt(s, i + 1);
      NewlinesKept(s[1..]);
      assert s == [s[0]] + s[1..];
    }
  }

  lemma {:induction false} BlankNewlines(s: string)
    ensures Blank(UnixNewlines(s)) <==> Blank(s)
    ensures s != "" ==> UnixNewlines(s) != ""
    decreases |s|
  {
    if s != "" {
      var rest, unix := s[1..], UnixNewlines(s[1..]);
      BlankNewlines(rest);
      BlankFirst(s);
      BlankFirst([s[0]] + unix);
      NewlineIsSpace();
      hide IsSpace, Blank;
    }
  }

  lemma BlankFirst(s: string)
    requires s != ""
    ensures Blank(s) <==> IsSpace(s[0]) && Blank(s[1..])
  {
    hide IsSpace;
    assert s == [s[0]] + s[1..];
    assert forall i | 0 <= i < |s| - 1 :: s[1..][i] == s[i + 1];
    assert forall i | 0 < i < |s| :: s[1..][i - 1] == s[i];
  }

  lemma NewlineIsSpace()
    ensures IsSpace('\r') && IsSpace('\n')
  {}

  const HEADER_TEXT := " Managed by GitHub production deployment. Final assignments below override base env values."

  const PROJECT_ID := "FIREBASE_PROJECT_ID"
  const SERVICE_ACCOUNT := "FIREBASE_SERVICE_ACCOUNT_JSON"

  const MANAGED_KEYS: seq<string> := [
    "PARTNER_PHONE_VERIFICATION_MODE",
    "PARTNER_SMS_PROVIDER",
    "WHATSAPP_ACCESS_TOKEN",
    "WHATSAPP_PHONE_NUMBER_ID",
    "WHATSAPP_BUSINESS_ACCOUNT_ID",
    "WHATSAPP_GRAPH_API_VERSION",
    "WHATSAPP_OTP_TEMPLATE_NAME",
    "WHATSAPP_OTP_TEMPLATE_LANGUAGE_CODE",
    "WHATSAPP_WEBHOOK_VERIFY_TOKEN",
    "WHATSAPP_APP_SECRET",
    "NEXT_PUBLIC_MAPBOX_TOKEN",
    "EXPO_PUBLIC_MAPBOX_TOKEN",
    "NEXT_PUBLIC_GOOGLE_MAPS_API_KEY",
    "GOOGLE_MAPS_API_KEY"
  ]

  datatype ServiceAccount = ServiceAccount(projectId: string, json: string)

  datatype Binding = Binding(key: string, value: Option<string>)

  /** What the script may append, in the order it does: the service account's values, then
      the first n overlays. */
  function BindingsTo(account: Option<ServiceAccount>, overlays: seq<Option<string>>, n: nat): seq<Binding>
    requires n <= |overlays| == |MANAGED_KEYS|
  {
    AccountBindings(account) + seq(n, i requires 0 <= i < n => Binding(MANAGED_KEYS[i], overlays[i]))
  }

  function AccountBindings(account: Option<ServiceAccount>): seq<Binding> {
    match account
    case None => []
    case Some(a) => [Binding(PROJECT_ID, Some(a.projectId)), Binding(SERVICE_ACCOUNT, Some(a.json))]
  }

  /** An environment after a list of assignments, blank ones skipped, later ones winning. */
  ghost function Assign(env: Env, bindings: seq<Binding>): Env
    decreases |bindings|
  {
    if bindings == [] then env else
    var last, before := bindings[|bindings| - 1], Assign(env, bindings[..|bindings| - 1]);
    if Normalized(last.value) == "" then before else before[last.key := Normalized(last.value)]
  }

  /** A base file that the shell reads to its end, outside any quotation. */
  ghost predicate Complete(base: string) { Source(base).Some? }

  /** The reader stands at the start of a line, with exactly these bindings. */
  ghost predicate Sourced(file: string, env: Env) {
    Read(Reader(map[], Start), file) == Reader(env, Start)
  }

  lemma NewlineCommits(r: Reader)
    requires Finish(r).Some?
    ensures Step(r, '\n') == Reader(Finish(r).value, Start)
  {}

  lemma LineEnded(base: string)
    requires Complete(base)
    ensures Sourced(base + "\n", Source(base).value)
  {
    var r := Read(Reader(map[], Start), base);
    ReadAppend(Reader(map[], Start), base, "\n");
    ReadOne(r, '\n');
    NewlineCommits(r);
  }

  lemma {:induction false} CommentSkipped(env: Env, text: string)
    requires '\n' !in text
    ensures Read(Reader(env, Comment), text) == Reader(env, Comment)
    decreases |text|
  {
    if text != "" {
      CommentSkipped(env, text[1..]);
    }
  }

  lemma CommentLineSkipped(file: string, env: Env, text: string)
    requires Sourced(file, env) && '\n' !in text
    ensures Sourced(file + "#" + text + "\n", env)
  {
    var r := Reader(map[], Start);
    ReadAppend(r, file + "#" + text, "\n");
    ReadAppend(r, file + "#", text);
    ReadAppend(r, file, "#");
    ReadOne(Reader(env, Start), '#');
    CommentSkipped(env, text);
    ReadOne(Reader(env, Comment), '\n');
  }

  lemma HeaderIsOneLine()
    ensures '\n' !in HEADER_TEXT
  {
    HeaderStart();
    assert '\n' !in " Managed by GitHub production deployment. Final assignments below ";
    assert '\n' !in " Managed by GitHub production deployment. Final assignments below override base ";
  }

  lemma HeaderStart()
    ensures '\n' !in " Managed by GitHub production deployment. Final as"
  {
    assert '\n' !in " Managed by GitHub";
    assert '\n' !in " Managed by GitHub production depl";
  }

  function WithHeader(envFile: string): (r: string)
    ensures envFile <= r
  {
    envFile + "\n" + "#" + HEADER_TEXT + "\n"
  }

  /** The header, after a base file that is complete, assigns nothing. */
  lemma HeaderAppended(file: string, env: Env)
    requires Source(file) == Some(env)
    ensures Sourced(WithHeader(file), env)
  {
    hide Source, Sourced;
    LineEnded(file);
    HeaderIsOneLine();
    CommentLineSkipped(file + "\n", env, HEADER_TEXT);
  }

  /** A value that is absent or blank is as good as none. */
  ghost predicate Missing(value: Option<string>) { value.None? || Blank(value.value) }

  lemma NormalizedExact(value: Option<string>)
    ensures Normalized(value) == "" <==> Missing(value)
    ensures !Missing(value) ==> exists i, j :: Strips(value.value, i, j) && Normalized(value) == value.value[i..j]
  {
    hide IsSpace, Trim;
    if value.Some? {
      TrimExact(value.value);
    }
  }

  /** Appending a value to a file changes what is sourced by that binding: the value without
      the white space around it, or none at all if it is missing. */
  lemma ValueAppended(file: string, env: Env, b: Binding)
    requires Sourced(file, env) && IsName(b.key)
    ensures Sourced(AppendManagedValue(file, b.key, b.value), Assign(env, [b]))
    ensures if Missing(b.value) then Assign(env, [b]) == env
            else exists i, j :: Strips(b.value.value, i, j) && Assign(env, [b]) == env[b.key := b.value.value[i..j]]
  {
    NormalizedExact(b.value);
    hide Strips, Missing;
    hide Normalized, ShellSingleQuote, IsName;
    assert Assign(env, [b][..0]) == env;
    var value := Normalized(b.value);
    if value != "" {
      var line := b.key + "=" + ShellSingleQuote(value) + "\n";
      LineAssigns(env, b.key, value);
      ReadAppend(Reader(map[], Start), file, line);
      assert AppendManagedValue(file, b.key, b.value) == file + line;
    }
  }

  lemma AssignNothing(env: Env)
    ensures Assign(env, AccountBindings(None)) == env
  {}

  lemma AssignOneMore(env: Env, bindings: seq<Binding>, b: Binding)
    ensures Assign(env, bindings + [b]) == Assign(Assign(env, bindings), [b])
  {}

  /** A key that no binding gives a value keeps what it had. */
  lemma {:induction false} Untouched(env: Env, bindings: seq<Binding>, key: string)
    requires NoneAfter(bindings, key, 0)
    ensures var after := Assign(env, bindings);
            (key in after <==> key in env) && (key in env ==> after[key] == env[key])
    decreases |bindings|
  {
    hide Normalized;
    if bindings != [] {
      assert bindings[|bindings| - 1].key == key ==> Normalized(bindings[|bindings| - 1].value) == "";
      Untouched(env, bindings[..|bindings| - 1], key);
    }
  }

  /** The last binding that gives a key a value is the one that counts. */
  lemma {:induction false} LastWins(env: Env, bindings: seq<Binding>, key: string, i: nat)
    requires i < |bindings| && bindings[i].key == key && Normalized(bindings[i].value) != ""
    requires NoneAfter(bindings, key, i + 1)
    ensures var after := Assign(env, bindings); key in after && after[key] == Normalized(bindings[i].value)
    decreases |bindings|
  {
    hide Normalized;
    if i < |bindings| - 1 {
      assert bindings[|bindings| - 1].key == key ==> Normalized(bindings[|bindings| - 1].value) == "";
      LastWins(env, bindings[..|bindings| - 1], key, i);
    }
  }

  ghost predicate NoneAfter(bindings: seq<Binding>, key: string, i: nat) {
    forall j :: i <= j < |bindings| && bindings[j].key == key ==> Normalized(bindings[j].value) == ""
  }

  lemma AssignNext(env: Env, account: Option<ServiceAccount>, overlays: seq<Option<string>>, n: nat)
    requires n < |overlays| == |MANAGED_KEYS|
    ensures Assign(env, BindingsTo(account, overlays, n + 1)) ==
            Assign(Assign(env, BindingsTo(account, overlays, n)), [Binding(MANAGED_KEYS[n], overlays[n])])
  {
    hide Assign;
    var b := Binding(MANAGED_KEYS[n], overlays[n]);
    assert BindingsTo(account, overlays, n + 1) == BindingsTo(account, overlays, n) + [b];
    AssignOneMore(env, BindingsTo(account, overlays, n), b);
  }

  lemma {:induction false} BlankOverlaysAssignNothing(env: Env, account: Option<ServiceAccount>,
                                                      overlays: seq<Option<string>>, n: nat)
    requires n <= |overlays| == |MANAGED_KEYS|
    requires forall i :: 0 <= i < n ==> Normalized(overlays[i]) == ""
    ensures Assign(env, BindingsTo(account, overlays, n)) == Assign(env, AccountBindings(account))
    decreases n
  {
    hide Normalized;
    if n == 0 {
      assert BindingsTo(account, overlays, 0) == AccountBindings(account);
    } else {
      AssignNext(env, account, overlays, n - 1);
      BlankOverlaysAssignNothing(env, account, overlays, n - 1);
      var b := [Binding(MANAGED_KEYS[n - 1], overlays[n - 1])];
      assert b[..0] == [];
    }
  }

  /** The service account's two lines, if there is one. */
  function WithAccount(envFile: string, account: Option<ServiceAccount>): (r: string)
    ensures envFile <= r
  {
    if account.None? then envFile
    else
      var withId := AppendManagedValue(envFile, PROJECT_ID, Some(account.value.projectId));
      AppendManagedValue(withId, SERVICE_ACCOUNT, Some(account.value.json))
  }

  lemma AccountAssigned(file: string, env: Env, account: Option<ServiceAccount>)
    requires Sourced(file, env)
    ensures Sourced(WithAccount(file, account), Assign(env, AccountBindings(account)))
  {
    hide AppendManagedValue, Assign, IsName, Sourced;
    match account
    case None =>
      AssignNothing(env);
    case Some(a) =>
      AccountKeysAreNames();
      var first, second := Binding(PROJECT_ID, Some(a.projectId)), Binding(SERVICE_ACCOUNT, Some(a.json));
      ValueAppended(file, env, first);
      ValueAppended(AppendManagedValue(file, PROJECT_ID, Some(a.projectId)), Assign(env, [first]), second);
      AssignOneMore(env, [first], second);
      assert AccountBindings(account) == [first] + [second];
  }

  lemma OverlayAssigned(file: string, env: Env, account: Option<ServiceAccount>, overlays: seq<Option<string>>, i: nat)
    requires i < |overlays| == |MANAGED_KEYS|
    requires Sourced(file, Assign(env, BindingsTo(account, overlays, i)))
    ensures Sourced(AppendManagedValue(file, MANAGED_KEYS[i], overlays[i]),
                    Assign(env, BindingsTo(account, overlays, i + 1)))
  {
    hide AppendManagedValue, Assign, IsName, Sourced, BindingsTo;
    ManagedKeyIsName(i);
    AssignNext(env, account, overlays, i);
    ValueAppended(file, Assign(env, BindingsTo(account, overlays, i)), Binding(MANAGED_KEYS[i], overlays[i]));
  }

  lemma ManagedKeyIsName(i: nat)
    requires i < |MANAGED_KEYS|
    ensures IsName(MANAGED_KEYS[i])
  {
    if i < 2 {
      PartnerKeysAreNames();
    } else if i == 2 {
      TokenKeyIsName();
    } else if i < 6 {
      WhatsAppKeysAreNames();
    } else if i < 8 {
      TemplateKeysAreNames();
    } else if i < 11 {
      SecretKeysAreNames();
    } else {
      MapKeysAreNames();
    }
  }

  lemma PartnerKeysAreNames()
    ensures IsName(MANAGED_KEYS[0]) && IsName(MANAGED_KEYS[1])
  {}

  lemma TokenKeyIsName()
    ensures IsName(MANAGED_KEYS[2])
  {}

  lemma WhatsAppKeysAreNames()
    ensures IsName(MANAGED_KEYS[3]) && IsName(MANAGED_KEYS[4]) && IsName(MANAGED_KEYS[5])
  {}

  lemma TemplateKeysAreNames()
    ensures IsName(MANAGED_KEYS[6]) && IsName(MANAGED_KEYS[7])
  {}

  lemma SecretKeysAreNames()
    ensures IsName(MANAGED_KEYS[8]) && IsName(MANAGED_KEYS[9]) && IsName(MANAGED_KEYS[10])
  {}

  lemma MapKeysAreNames()
    ensures IsName(MANAGED_KEYS[11]) && IsName(MANAGED_KEYS[12]) && IsName(MANAGED_KEYS[13])
  {}

  lemma AccountKeysAreNames()
    ensures IsName(PROJECT_ID) && IsName(SERVICE_ACCOUNT)
  {}

  // ----- each managed key on its own -----

  /** Which of the sixteen keys a name is, told by its length and two of its letters. */
  function PositionOf(key: string): nat
    requires |key| >= 19
  {
    match |key|
    case 19 => if key[0] == 'W' then 9 else if key[0] == 'G' then 13 else 14
    case 20 => 1
    case 21 => 2
    case 24 => if key[0] == 'W' then 3 else if key[0] == 'N' then 10 else 11
    case 26 => if key[9] == 'G' then 5 else 6
    case 28 => 4
    case 29 => if key[0] == 'W' then 8 else 15
    case 31 => if key[0] == 'P' then 0 else 12
    case _ => 7
  }

  lemma KeyPosition(i: nat)
    requires i < |MANAGED_KEYS|
    ensures |MANAGED_KEYS[i]| >= 19 && PositionOf(MANAGED_KEYS[i]) == i
  {}

  lemma AccountKeyPositions()
    ensures |PROJECT_ID| == 19 && |SERVICE_ACCOUNT| == 29
    ensures PositionOf(PROJECT_ID) == 14 && PositionOf(SERVICE_ACCOUNT) == 15
  {}

  /** Sixteen keys in all, each bound at most once. */
  lemma KeyOfBinding(account: Option<ServiceAccount>, overlays: seq<Option<string>>, p: nat)
    requires |overlays| == |MANAGED_KEYS| && p < |BindingsTo(account, overlays, |overlays|)|
    ensures var key := BindingsTo(account, overlays, |overlays|)[p].key;
            |key| >= 19 && PositionOf(key) == if account.None? then p else (p + 14) % 16
  {
    hide PositionOf;
    var shift := if account.None? then 0 else 2;
    if p < shift {
      AccountKeyPositions();
    } else {
      KeyPosition(p - shift);
    }
  }

  /** One binding's effect, when no other has its key. */
  lemma BoundOnce(env: Env, bindings: seq<Binding>, p: nat)
    requires p < |bindings| && forall q :: 0 <= q < |bindings| && q != p ==> bindings[q].key != bindings[p].key
    ensures Override(env, Assign(env, bindings), bindings[p].key, bindings[p].value)
  {
    var b := bindings[p];
    hide Normalized, Assign;
    NormalizedExact(b.value);
    hide Strips, Missing;
    if Missing(b.value) {
      Untouched(env, bindings, b.key);
    } else {
      LastWins(env, bindings, b.key, p);
    }
  }

  /** What a managed value does to its own key: nothing if it is missing, and otherwise it
      binds the key to the value without the white space around it. */
  ghost predicate Override(before: Env, after: Env, key: string, value: Option<string>) {
    if Missing(value) then (key in after <==> key in before) && (key in before ==> after[key] == before[key])
    else key in after && exists i, j :: Strips(value.value, i, j) && after[key] == value.value[i..j]
  }

  lemma OverridesOwnKey(env: Env, account: Option<ServiceAccount>, overlays: seq<Option<string>>, p: nat)
    requires |overlays| == |MANAGED_KEYS| && p < |BindingsTo(account, overlays, |overlays|)|
    ensures var bindings := BindingsTo(account, overlays, |overlays|);
            Override(env, Assign(env, bindings), bindings[p].key, bindings[p].value)
  {
    hide Override, BindingsTo, Assign, PositionOf;
    var bindings := BindingsTo(account, overlays, |overlays|);
    KeyOfBinding(account, overlays, p);
    forall q | 0 <= q < |bindings| && q != p
      ensures bindings[q].key != bindings[p].key
    {
      KeyOfBinding(account, overlays, q);
      assert |bindings| <= 16 by { BindingCount(account, overlays); }
    }
    BoundOnce(env, bindings, p);
  }

  lemma BindingCount(account: Option<ServiceAccount>, overlays: seq<Option<string>>)
    requires |overlays| == |MANAGED_KEYS|
    ensures |BindingsTo(account, overlays, |overlays|)| == if account.None? then 14 else 16
  {}

  /** Key by key, what the managed values make of an environment. */
  lemma ManagedKeys(env: Env, account: Option<ServiceAccount>, overlays: seq<Option<string>>)
    requires |overlays| == |MANAGED_KEYS|
    ensures var after := Assign(env, BindingsTo(account, overlays, |overlays|));
            && (forall i :: 0 <= i < |overlays| ==> Override(env, after, MANAGED_KEYS[i], overlays[i]))
            && (account.Some? ==> Override(env, after, PROJECT_ID, Some(account.value.projectId))
                                  && Override(env, after, SERVICE_ACCOUNT, Some(account.value.json)))
            && (forall key :: key !in MANAGED_KEYS && (account.Some? ==> key != PROJECT_ID && key != SERVICE_ACCOUNT) ==>
                  (key in after <==> key in env) && (key in env ==> after[key] == env[key]))
  {
    hide Override, Assign;
    var bindings := BindingsTo(account, overlays, |overlays|);
    var shift := if account.None? then 0 else 2;
    forall i | 0 <= i < |overlays|
      ensures Override(env, Assign(env, bindings), MANAGED_KEYS[i], overlays[i])
    {
      OverridesOwnKey(env, account, overlays, i + shift);
      assert bindings[i + shift] == Binding(MANAGED_KEYS[i], overlays[i]);
    }
    if account.Some? {
      OverridesOwnKey(env, account, overlays, 0);
      OverridesOwnKey(env, account, overlays, 1);
    }
    forall key | key !in MANAGED_KEYS && (account.Some? ==> key != PROJECT_ID && key != SERVICE_ACCOUNT)
      ensures var after := Assign(env, bindings);
              (key in after <==> key in env) && (key in env ==> after[key] == env[key])
    {
      Untouched(env, bindings, key);
    }
  }

  /** The environment the deployment ends up with. */
  ghost function Prepared(base: string, account: Option<ServiceAccount>, overlays: seq<Option<string>>): Env
    requires |overlays| == |MANAGED_KEYS| && Complete(base)
  {
    Assign(Source(base).value, BindingsTo(account, overlays, |overlays|))
  }

  lemma SourcedFile(file: string, env: Env)
    requires Sourced(file, env)
    ensures Source(file) == Some(env)
  {}

  predicate AnyGiven(overlays: seq<Option<string>>) {
    exists i :: 0 <= i < |overlays| && Normalized(overlays[i]) != ""
  }

  /** What the bindings come to before the first overlay, and at all if none is given. */
  lemma OverlaysNotGiven(env: Env, account: Option<ServiceAccount>, overlays: seq<Option<string>>)
    requires |overlays| == |MANAGED_KEYS|
    ensures Assign(env, BindingsTo(account, overlays, 0)) == Assign(env, AccountBindings(account))
    ensures !AnyGiven(overlays) ==>
              Assign(env, BindingsTo(account, overlays, |overlays|)) == Assign(env, AccountBindings(account))
  {
    hide Assign, BindingsTo, Normalized;
    BlankOverlaysAssignNothing(env, account, overlays, 0);
    if !AnyGiven(overlays) {
      BlankOverlaysAssignNothing(env, account, overlays, |overlays|);
    }
  }

  lemma GivenExactly(overlays: seq<Option<string>>)
    ensures !AnyGiven(overlays) <==> forall i :: 0 <= i < |overlays| ==> Missing(overlays[i])
  {
    hide Normalized, Missing;
    forall i | 0 <= i < |overlays|
      ensures Normalized(overlays[i]) == "" <==> Missing(overlays[i])
    {
      NormalizedExact(overlays[i]);
    }
  }

  /** The base file's text, with a line feed at its end. */
  ghost function Ended(base: string): string {
    if base != "" && base[|base| - 1] == '\n' then base else base + "\n"
  }

  /** Sourcing the prepared file gives the bindings of the base file, overridden by every
      managed value that is not blank. */
  method PrepareEnvFile(base: string, account: Option<ServiceAccount>, overlays: seq<Option<string>>)
    returns (file: Option<string>)
    requires |overlays| == |MANAGED_KEYS|
    ensures file.None? <==> forall i :: 0 <= i < |base| ==> IsSpace(base[i])
    ensures file.Some? ==>
              if account.None? && forall i :: 0 <= i < |overlays| ==> Missing(overlays[i])
              then file.value == Ended(UnixNewlines(base))
              else WithHeader(Ended(UnixNewlines(base))) <= file.value
    ensures file.Some? && Complete(UnixNewlines(base)) ==>
              Source(file.value) == Some(Prepared(UnixNewlines(base), account, overlays))
    ensures file.Some? && Complete(UnixNewlines(base)) ==>
              var before, after := Source(UnixNewlines(base)).value, Source(file.value).value;
              && (forall i :: 0 <= i < |overlays| ==> Override(before, after, MANAGED_KEYS[i], overlays[i]))
              && (account.Some? ==> Override(before, after, PROJECT_ID, Some(account.value.projectId))
                                    && Override(before, after, SERVICE_ACCOUNT, Some(account.value.json)))
              && (forall key :: key !in MANAGED_KEYS && (account.Some? ==> key != PROJECT_ID && key != SERVICE_ACCOUNT) ==>
                    (key in after <==> key in before) && (key in before ==> after[key] == before[key]))
  {
    hide Source, Sourced, Assign, AppendManagedValue, WithHeader, BindingsTo, AccountBindings;
    hide UnixNewlines, Normalized, AnyGiven, Override, IsSpace, Missing;
    GivenExactly(overlays);
    BlankNewlines(base);
    TrimExact(UnixNewlines(base));
    if Complete(UnixNewlines(base)) {
      ManagedKeys(Source(UnixNewlines(base)).value, account, overlays);
    }
    var envFile := UnixNewlines(base);
    if Trim(envFile) == "" {
      return None;
    }
    ghost var complete := Complete(envFile);
    ghost var env := if complete then Source(envFile).value else map[];
    if envFile[|envFile| - 1] != '\n' {
      if complete {
        LineEnded(envFile);
        SourcedFile(envFile + "\n", env);
      }
      envFile := envFile + "\n";
    }
    var hasManagedOverlay := AnyGiven(overlays);
    OverlaysNotGiven(env, account, overlays);
    AssignNothing(env);
    if account.Some? || hasManagedOverlay {
      if complete {
        HeaderAppended(envFile, env);
        AccountAssigned(WithHeader(envFile), env, account);
      }
      envFile := WithHeader(envFile);
    }
    envFile := WithAccount(envFile, account);
    if hasManagedOverlay {
      for i := 0 to |overlays|
        invariant WithHeader(Ended(UnixNewlines(base))) <= envFile
        invariant complete ==> Sourced(envFile, Assign(env, BindingsTo(account, overlays, i)))
      {
        if complete {
          OverlayAssigned(envFile, env, account, overlays, i);
        }
        envFile := AppendManagedValue(envFile, MANAGED_KEYS[i], overlays[i]);
      }
    }
    if complete && (account.Some? || hasManagedOverlay) {
      SourcedFile(envFile, Prepared(UnixNewlines(base), account, overlays));
    }
    return Some(envFile);
  }
}
