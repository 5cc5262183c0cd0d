/** The administrator's commands of the main alert bot
    (api/services/send_alert.js): `/maintenance on|off`, `/stats`,
    `/check_user`, `/export`, `/broadcast` and `/mreply`. The handler only
    reaches them for a chat whose id is ADMIN_ID. */
module AlertAdmin {
  import opened JsStrings
  import opened Store
  import opened Telegram
  import opened Markup
  import opened AlertTypes

  /** The command a text starts, if any, as the handler tries them: exact
      texts for `/maintenance`, `/stats` and `/export`, prefixes for the
      others. None lets the text fall through to `/start`. */
  function AdminCommand(text: string, env: Env): (r: Option<Response>)
    ensures r.Some? && r.value.maintenanceWrite.Some? ==>
      (text == "/maintenance on" && r.value.maintenanceWrite == Some(true)) ||
      (text == "/maintenance off" && r.value.maintenanceWrite == Some(false))
    ensures r.None? <==>
      text !in {"/maintenance on", "/maintenance off", "/stats", "/export"} &&
      !StartsWith(text, "/check_user") && !StartsWith(text, "/broadcast") && !StartsWith(text, "/mreply")
  {
    if text == "/maintenance on" then Some(Response(ToAdmin(env.admin, MaintenanceOn), Some(true), OkText))
    else if text == "/maintenance off" then Some(Response(ToAdmin(env.admin, MaintenanceOff), Some(false), OkText))
    else if text == "/stats" then Some(Sent(ToAdmin(env.admin, StatsReport(env.users))))
    else if StartsWith(text, "/check_user") then Some(CheckUser(text, env))
    else if text == "/export" then Some(Export(env))
    else if StartsWith(text, "/broadcast") then Some(BroadcastRun(text, env))
    else if StartsWith(text, "/mreply") then Some(MassReplyRun(text, env))
    else None
  }

  // ---------------------------------------------------------------------
  // /stats
  // ---------------------------------------------------------------------

  /** Total users, banned users, and their difference as the active count,
      which is the number of users not banned. */
  function StatsReport(users: Users): (t: Text)
    ensures !users.up ==> t == StatsFailed
    ensures users.up ==> t == Stats(|users.docs|, CountBanned(users.docs), CountNotBanned(users.docs))
  {
    if !users.up then StatsFailed
    else
      ActiveIsNotBanned(users.docs);
      Stats(|users.docs|, CountBanned(users.docs), |users.docs| - CountBanned(users.docs))
  }

  // ---------------------------------------------------------------------
  // /check_user
  // ---------------------------------------------------------------------

  /** The id `/check_user` looks up: the second space-separated word,
      trimmed; None when the text has no space. */
  function CheckUserArgument(text: string): Option<string> {
    var parts := Split(text, ' ');
    if |parts| < 2 then None else Some(Trim(parts[1]))
  }

  /** The lookup of `/check_user`: by document id, then by a numeric
      `telegram_id`, then by a string one. */
  function FindUser(users: Users, id: string): Read<Option<UserRecord>> {
    match GetDoc(users, id)
    case Threw => Threw
    case Got(byId) =>
      if byId.Some? then Got(byId)
      else
        match QueryTelegramId(users, NumberValues(id))
        case Threw => Threw
        case Got(byNumber) =>
          if byNumber.Some? then Got(Some(byNumber.value.data))
          else
            match QueryTelegramId(users, {StrId(id)})
            case Threw => Threw
            case Got(byString) => Got(if byString.Some? then Some(byString.value.data) else None)
  }

  /** The report on a found user. */
  function UserCardOf(id: string, u: UserRecord, docs: seq<Doc>): Text {
    UserCard(Or(Or(u.firstName, u.username), UnknownName), id, Score(u), Rank(docs, Score(u)),
             u.inviteCount, u.isBanned, Or(u.referrerId, NoReferrerLabel))
  }

  function CheckUser(text: string, env: Env): Response {
    match CheckUserArgument(text)
    case None => Response(ToAdmin(env.admin, CheckUserUsage), None, MissingIdText)
    case Some(id) =>
      match FindUser(env.users, id)
      case Threw => Sent(ToAdmin(env.admin, LookupFailed))
      case Got(found) =>
        if found.None? then Response(ToAdmin(env.admin, UserNotFound(id)), None, UserNotFoundText)
        else Sent(ToAdmin(env.admin, UserCardOf(id, found.value, env.users.docs)))
  }

  /** The usage message is sent exactly when the text has no space. */
  lemma CheckUserArgumentMissing(text: string)
    ensures CheckUserArgument(text).None? <==> ' ' !in text
  {
    if ' ' in text {
      var i := IndexOfChar(text, ' ');
      assert Split(text, ' ') == [text[..i]] + Split(text[i + 1..], ' ');
    }
  }

  /** `/check_user <id>` looks up exactly the digits typed. */
  lemma CheckUserArgumentOf(command: string, id: string)
    requires ' ' !in command && AllDigits(id)
    ensures CheckUserArgument(command + " " + id) == Some(id)
  {
    assert ' ' !in id by {
      forall i | 0 <= i < |id| ensures id[i] != ' ' { assert IsDigit(id[i]); }
    }
    SplitCons(command, ' ', id);
    assert command + " " + id == command + [' '] + id;
    SplitNoSep(id, ' ');
    TrimDigits(id);
  }

  /** `/check_user` finds a user exactly when the existence check of the
      share button and of `/start` would, and what it reports is the data
      of a document that registers the id. */
  lemma FindUserMeaning(users: Users, id: string)
    ensures FindUser(users, id).Threw? <==> !users.up || id == ""
    ensures FindUser(users, id).Got? ==>
      (FindUser(users, id).value.Some? <==> UserExists(users, id) == Got(true))
    ensures FindUser(users, id).Got? && FindUser(users, id).value.Some? ==>
      exists d :: d in users.docs && Registers(d, id) && d.data == FindUser(users, id).value.value
  {
    UserExistsMeaning(users, id);
    if users.up && id != "" {
      var byId := FirstWithId(users.docs, id);
      if byId.Some? {
        var k :| 0 <= k < |users.docs| && users.docs[k].id == id && users.docs[k].data == byId.value;
        assert Registers(users.docs[k], id);
      } else {
        var byNumber := FirstWithTelegramId(users.docs, NumberValues(id));
        if byNumber.None? {
          var byString := FirstWithTelegramId(users.docs, {StrId(id)});
          if byString.Some? {
            assert Registers(byString.value, id);
          }
        } else {
          assert Registers(byNumber.value, id);
        }
      }
    }
  }

  // ---------------------------------------------------------------------
  // /export
  // ---------------------------------------------------------------------

  /** The column names of the export. */
  const Columns := ["Telegram ID", "Username", "Total Score", "Invites", "Referrer ID"]

  /** Fields joined by ", ". */
  function CommaJoin(fields: seq<string>): string {
    if |fields| == 0 then ""
    else if |fields| == 1 then fields[0]
    else fields[0] + ", " + CommaJoin(fields[1..])
  }

  function CsvHeader(): string {
    CommaJoin(Columns)
  }

  /** The fields of one user document: its id, username, score, invite
      count and referrer, "none" standing for a missing username or
      referrer. */
  function CsvFields(d: Doc): seq<string> {
    [d.id, Or(d.data.username, "none"), IntToString(Score(d.data)), IntToString(d.data.inviteCount),
     Or(d.data.referrerId, "none")]
  }

  /** One CSV record (without its line break). */
  function CsvRow(d: Doc): string {
    CommaJoin(CsvFields(d))
  }

  function Rows(docs: seq<Doc>): seq<string> {
    seq(|docs|, k requires 0 <= k < |docs| => CsvRow(docs[k]))
  }

  /** The lines, each ended by a line break. */
  function Lines(rows: seq<string>): string {
    if |rows| == 0 then "" else rows[0] + "\n" + Lines(rows[1..])
  }

  /** The file `/export` sends: the header line, then one line per user
      document, in collection order. */
  function Csv(docs: seq<Doc>): string {
    Lines([CsvHeader()] + Rows(docs))
  }

  lemma {:induction false} LinesSnoc(rows: seq<string>, k: nat)
    requires k < |rows|
    ensures Lines(rows[..k + 1]) == Lines(rows[..k]) + rows[k] + "\n"
    decreases k
  {
    if k == 0 {
      assert rows[..1][1..] == [];
    } else {
      assert rows[..k + 1][1..] == rows[1..][..k];
      assert rows[..k][1..] == rows[1..][..k - 1];
      LinesSnoc(rows[1..], k - 1);
    }
  }

  /** The loop that builds the export, one line per user document. */
  method ExportCsv(docs: seq<Doc>) returns (csv: string)
    ensures csv == Csv(docs)
  {
    var header := CsvHeader();
    ghost var rows := [header] + Rows(docs);
    csv := header + "\n";
    LinesSnoc(rows, 0);
    var k := 0;
    while k < |docs|
      invariant 0 <= k <= |docs|
      invariant csv == Lines(rows[..k + 1])
    {
      LinesSnoc(rows, k + 1);
      var line := CsvRow(docs[k]);
      RowAfterHeader(header, docs, k);
      csv := csv + line + "\n";
      k := k + 1;
    }
    assert rows[..|docs| + 1] == rows;
  }

  lemma RowAfterHeader(header: string, docs: seq<Doc>, k: nat)
    requires k < |docs|
    ensures ([header] + Rows(docs))[k + 1] == CsvRow(docs[k])
  {
  }

  /** Fields that do not break a CSV line. */
  predicate OneLine(d: Doc) {
    '\n' !in d.id && '\n' !in d.data.username && '\n' !in d.data.referrerId
  }

  lemma {:induction false} CommaJoinOneLine(fields: seq<string>)
    requires forall k :: 0 <= k < |fields| ==> '\n' !in fields[k]
    ensures '\n' !in CommaJoin(fields)
    decreases |fields|
  {
    if |fields| > 1 {
      CommaJoinOneLine(fields[1..]);
      assert '\n' !in ", " by {
        forall i | 0 <= i < |", "| ensures ", "[i] != '\n' {}
      }
    }
  }

  lemma RowOneLine(d: Doc)
    requires OneLine(d)
    ensures '\n' !in CsvRow(d)
  {
    CommaJoinOneLine(CsvFields(d));
  }

  lemma HeaderOneLine()
    ensures '\n' !in CsvHeader()
  {
    forall k, i | 0 <= k < |Columns| && 0 <= i < |Columns[k]| ensures Columns[k][i] != '\n' {
    }
    CommaJoinOneLine(Columns);
  }

  lemma {:induction false} LinesSplit(rows: seq<string>)
    requires forall k :: 0 <= k < |rows| ==> '\n' !in rows[k]
    ensures Split(Lines(rows), '\n') == rows + [""]
    decreases |rows|
  {
    if |rows| > 0 {
      var head, rest := rows[0], rows[1..];
      LinesSplit(rest);
      assert Lines(rows) == head + ['\n'] + Lines(rest);
      SplitCons(head, '\n', Lines(rest));
      LastEmpty(rows);
    }
  }

  /** The parts of the first line, then of the rest, are the lines and a
      last empty part. */
  lemma LastEmpty(rows: seq<string>)
    requires |rows| > 0
    ensures [rows[0]] + (rows[1..] + [""]) == rows + [""]
  {
    ConcatAssoc([rows[0]], rows[1..], [""]);
    assert [rows[0]] + rows[1..] == rows;
  }

  /** Read back line by line, the export is the header, then one record per
      user in collection order, then nothing after the last line break. */
  lemma CsvSplit(docs: seq<Doc>)
    requires forall k :: 0 <= k < |docs| ==> OneLine(docs[k])
    ensures Split(Csv(docs), '\n') == [CsvHeader()] + Rows(docs) + [""]
  {
    var rows := [CsvHeader()] + Rows(docs);
    forall k | 0 <= k < |rows| ensures '\n' !in rows[k] {
      if k == 0 {
        HeaderOneLine();
      } else {
        RowOneLine(docs[k - 1]);
      }
    }
    LinesSplit(rows);
  }

  function Export(env: Env): Response {
    if !env.users.up then Response([], None, ErrorText)
    else Sent([SendDocument(env.admin, Csv(env.users.docs))])
  }

  // ---------------------------------------------------------------------
  // /broadcast
  // ---------------------------------------------------------------------

  /** The text after the first space, or the whole text when there is none. */
  function BroadcastText(text: string): string {
    text[IndexOfChar(text, ' ') + 1..]
  }

  lemma BroadcastTextAfterCommand(command: string, body: string)
    requires ' ' !in command
    ensures BroadcastText(command + " " + body) == body
    ensures BroadcastText(command) == command
  {
    var s := command + " " + body;
    assert s[|command|] == ' ' && s[..|command|] == command;
    assert s[|command| + 1..] == body;
  }

  /** What one user receives: the text with `{name}` filled in with the
      user's first name, or "friend"; the name is not escaped. */
  function BroadcastTo(d: Doc, raw: string): Action<Text> {
    SendMessage(d.id, Raw(FillName(raw, Or(d.data.firstName, FriendName))), None)
  }

  /** The loop over every user document. */
  method Broadcast(docs: seq<Doc>, raw: string) returns (sends: seq<Action<Text>>)
    ensures |sends| == |docs|
    ensures forall k :: 0 <= k < |docs| ==> sends[k] == BroadcastTo(docs[k], raw)
  {
    sends := [];
    for k := 0 to |docs|
      invariant |sends| == k
      invariant forall j :: 0 <= j < k ==> sends[j] == BroadcastTo(docs[j], raw)
    {
      sends := sends + [BroadcastTo(docs[k], raw)];
    }
  }

  function Broadcasts(docs: seq<Doc>, raw: string): seq<Action<Text>> {
    seq(|docs|, k requires 0 <= k < |docs| => BroadcastTo(docs[k], raw))
  }

  /** Without the placeholder every user gets the same text. */
  lemma BroadcastWithoutPlaceholder(docs: seq<Doc>, raw: string)
    requires IndexOf(raw, NamePlaceholder) == -1
    ensures forall k :: 0 <= k < |docs| ==> Broadcasts(docs, raw)[k] == SendMessage(docs[k].id, Raw(raw), None)
  {
    forall k | 0 <= k < |docs| ensures Broadcasts(docs, raw)[k] == SendMessage(docs[k].id, Raw(raw), None) {
      FillNameAbsent(raw, Or(docs[k].data.firstName, FriendName));
    }
  }

  function BroadcastRun(text: string, env: Env): Response {
    if !env.users.up then Response([], None, ErrorText)
    else Sent(Broadcasts(env.users.docs, BroadcastText(text)) + ToAdmin(env.admin, BroadcastDone))
  }

  // ---------------------------------------------------------------------
  // /mreply: the pattern /^\/mreply\s+([\d,]+)\s+(.+)/s
  // ---------------------------------------------------------------------

  predicate IsIdChar(c: char) { IsDigit(c) || c == ',' }

  predicate AllIdChars(s: string) { forall i :: 0 <= i < |s| ==> IsIdChar(s[i]) }

  /** The length of the whitespace run at the start of `s`. */
  function SpaceRun(s: string): (n: nat)
    ensures n <= |s| && AllSpace(s[..n]) && (n < |s| ==> !IsSpace(s[n]))
  {
    if |s| > 0 && IsSpace(s[0]) then
      var n := 1 + SpaceRun(s[1..]);
      assert forall i :: 1 <= i < n ==> s[..n][i] == s[1..][..n - 1][i - 1];
      n
    else 0
  }

  /** The length of the run of digits and commas at the start of `s`. */
  function IdRun(s: string): (n: nat)
    ensures n <= |s| && AllIdChars(s[..n]) && (n < |s| ==> !IsIdChar(s[n]))
  {
    if |s| > 0 && IsIdChar(s[0]) then
      var n := 1 + IdRun(s[1..]);
      assert forall i :: 1 <= i < n ==> s[..n][i] == s[1..][..n - 1][i - 1];
      n
    else 0
  }

  /** A string cut in two: `front + back`. */
  datatype Cut = Cut(front: string, back: string)

  /** The longest whitespace prefix, as `\s+` takes it greedily. */
  function TakeSpaces(s: string): (c: Cut)
    ensures c.front + c.back == s && AllSpace(c.front)
    ensures |c.back| > 0 ==> !IsSpace(c.back[0])
  {
    var n := SpaceRun(s);
    assert s[..n] + s[n..] == s;
    Cut(s[..n], s[n..])
  }

  /** The longest prefix of digits and commas, as `[\d,]+` takes it. */
  function TakeIds(s: string): (c: Cut)
    ensures c.front + c.back == s && AllIdChars(c.front)
    ensures |c.back| > 0 ==> !IsIdChar(c.back[0])
  {
    var n := IdRun(s);
    assert s[..n] + s[n..] == s;
    Cut(s[..n], s[n..])
  }

  const MassReplyName := "/mreply"

  /** A match of the pattern: the command, whitespace, the id list (group
      1), whitespace, and the message (group 2). */
  datatype MassReplyParts = MassReplyParts(gap: string, ids: string, sep: string, content: string)

  predicate WellFormed(p: MassReplyParts) {
    |p.gap| > 0 && AllSpace(p.gap) && |p.ids| > 0 && AllIdChars(p.ids)
    && |p.sep| > 0 && AllSpace(p.sep) && |p.content| > 0
  }

  /** What follows the command name. */
  function Args(p: MassReplyParts): string {
    p.gap + p.ids + p.sep + p.content
  }

  function Compose(p: MassReplyParts): string {
    MassReplyName + Args(p)
  }

  /** The match after the command name, as the greedy quantifiers find
      it: the whitespace after the ids takes all it can while leaving the
      message at least one character. */
  function ParseArgs(s1: string): (r: Option<MassReplyParts>)
    ensures r.Some? ==> WellFormed(r.value) && Args(r.value) == s1
  {
    var gap := TakeSpaces(s1);
    var ids := TakeIds(gap.back);
    var sep := TakeSpaces(ids.back);
    var n := if |sep.back| > 0 then |sep.front| else |sep.front| - 1;
    if |gap.front| == 0 || |ids.front| == 0 || n <= 0 then None
    else
      var p := MassReplyParts(gap.front, ids.front, sep.front[..n], sep.front[n..] + sep.back);
      SpacePrefix(sep.front, n);
      ConcatAssoc(sep.front[..n], sep.front[n..], sep.back);
      ConcatAssoc(gap.front, ids.front, sep.front + sep.back);
      ConcatAssoc(gap.front + ids.front, p.sep, p.content);
      Some(p)
  }

  /** The split the greedy `\s+` before `(.+)` makes: the message starts
      with whitespace only when it is the one whitespace character the
      separator had to leave it. */
  lemma ParseArgsGreedy(s1: string)
    ensures ParseArgs(s1).Some? && IsSpace(ParseArgs(s1).value.content[0]) ==>
      |ParseArgs(s1).value.content| == 1
  {
    var gap := TakeSpaces(s1);
    var ids := TakeIds(gap.back);
    var sep := TakeSpaces(ids.back);
    if |sep.back| > 0 {
      assert sep.front[|sep.front|..] + sep.back == sep.back;
    }
  }

  lemma SpacePrefix(s: string, n: nat)
    requires AllSpace(s) && n <= |s|
    ensures AllSpace(s[..n]) && s[..n] + s[n..] == s
  {
    assert forall i :: 0 <= i < n ==> s[..n][i] == s[i];
  }

  /** `text.match(/^\/mreply\s+([\d,]+)\s+(.+)/s)`. */
  function ParseMassReply(text: string): (r: Option<MassReplyParts>)
    ensures r.Some? ==> WellFormed(r.value) && Compose(r.value) == text
  {
    if !StartsWith(text, MassReplyName) then None
    else
      assert text == MassReplyName + text[|MassReplyName|..];
      ParseArgs(text[|MassReplyName|..])
  }

  lemma {:induction false} SpaceRunOf(a: string, b: string)
    requires AllSpace(a) && (|b| > 0 ==> !IsSpace(b[0]))
    ensures SpaceRun(a + b) == |a|
    decreases |a|
  {
    if |a| > 0 {
      assert (a + b)[1..] == a[1..] + b;
      SpaceRunOf(a[1..], b);
    } else {
      assert a + b == b;
    }
  }

  lemma {:induction false} SpaceRunAtLeast(a: string, b: string)
    requires AllSpace(a)
    ensures SpaceRun(a + b) >= |a|
    decreases |a|
  {
    if |a| > 0 {
      assert (a + b)[1..] == a[1..] + b;
      SpaceRunAtLeast(a[1..], b);
    }
  }

  lemma {:induction false} IdRunOf(a: string, b: string)
    requires AllIdChars(a) && (|b| > 0 ==> !IsIdChar(b[0]))
    ensures IdRun(a + b) == |a|
    decreases |a|
  {
    if |a| > 0 {
      assert (a + b)[1..] == a[1..] + b;
      IdRunOf(a[1..], b);
    } else {
      assert a + b == b;
    }
  }

  lemma TakeSpacesOf(a: string, b: string)
    requires AllSpace(a) && (|b| > 0 ==> !IsSpace(b[0]))
    ensures TakeSpaces(a + b) == Cut(a, b)
  {
    SpaceRunOf(a, b);
    assert (a + b)[..|a|] == a && (a + b)[|a|..] == b;
  }

  lemma TakeIdsOf(a: string, b: string)
    requires AllIdChars(a) && (|b| > 0 ==> !IsIdChar(b[0]))
    ensures TakeIds(a + b) == Cut(a, b)
  {
    IdRunOf(a, b);
    assert (a + b)[..|a|] == a && (a + b)[|a|..] == b;
  }

  lemma TakeSpacesAtLeast(a: string, b: string)
    requires AllSpace(a)
    ensures |TakeSpaces(a + b).front| >= |a|
  {
    SpaceRunAtLeast(a, b);
  }

  lemma ParseArgsComplete(p: MassReplyParts)
    requires WellFormed(p)
    ensures ParseArgs(Args(p)).Some? && ParseArgs(Args(p)).value.ids == p.ids
  {
    var tail := p.sep + p.content;
    assert Args(p) == p.gap + (p.ids + tail);
    assert !IsSpace(p.ids[0]) by { assert IsIdChar(p.ids[0]); }
    TakeSpacesOf(p.gap, p.ids + tail);
    var gap := TakeSpaces(Args(p));
    assert gap == Cut(p.gap, p.ids + tail);
    assert !IsIdChar(p.sep[0]) by { assert IsSpace(p.sep[0]); }
    TakeIdsOf(p.ids, tail);
    var ids := TakeIds(gap.back);
    assert ids == Cut(p.ids, tail);
    TakeSpacesAtLeast(p.sep, p.content);
    var sep := TakeSpaces(ids.back);
    assert |sep.front| >= |p.sep| > 0;
    assert |sep.back| == 0 ==> |sep.front| == |tail| > 1;
    ParseArgsSome(Args(p), gap, ids, sep);
  }

  /** The match succeeds once each part has found its characters. */
  lemma ParseArgsSome(s1: string, gap: Cut, ids: Cut, sep: Cut)
    requires gap == TakeSpaces(s1) && ids == TakeIds(gap.back) && sep == TakeSpaces(ids.back)
    requires |gap.front| > 0 && |ids.front| > 0 && |sep.front| > 0 && (|sep.back| > 0 || |sep.front| > 1)
    ensures ParseArgs(s1).Some? && ParseArgs(s1).value.ids == ids.front
  {
  }

  /** Every text the pattern matches is parsed, with the same id list: the
      id list is determined by the text. */
  lemma ParseMassReplyComplete(p: MassReplyParts)
    requires WellFormed(p)
    ensures ParseMassReply(Compose(p)).Some?
    ensures ParseMassReply(Compose(p)).value.ids == p.ids
  {
    var text := Compose(p);
    assert text[..|MassReplyName|] == MassReplyName;
    assert text[|MassReplyName|..] == Args(p);
    ParseArgsComplete(p);
  }

  /** `ids.split(',').map(id => id.trim())`. */
  function TrimEach(parts: seq<string>): (r: seq<string>)
    ensures |r| == |parts|
  {
    seq(|parts|, k requires 0 <= k < |parts| => Trim(parts[k]))
  }

  /** The comma-separated pieces of a run of digits and commas are runs of
      digits. */
  lemma {:induction false} SplitIdsDigits(s: string)
    requires AllIdChars(s)
    ensures forall k :: 0 <= k < |Split(s, ',')| ==> AllDigits(Split(s, ',')[k])
    decreases |s|
  {
    var i := IndexOfChar(s, ',');
    if i != -1 {
      var parts := Split(s, ',');
      assert parts == [s[..i]] + Split(s[i + 1..], ',');
      var rest := s[i + 1..];
      assert AllIdChars(rest) by {
        forall x | 0 <= x < |rest| ensures IsIdChar(rest[x]) {
          assert rest[x] == s[i + 1 + x];
        }
      }
      SplitIdsDigits(rest);
      assert AllDigits(s[..i]) by {
        forall x | 0 <= x < i ensures IsDigit(s[..i][x]) {
          assert s[..i][x] == s[x] && s[x] != ',';
        }
      }
      forall k | 0 <= k < |parts| ensures AllDigits(parts[k]) {
        if k > 0 {
          assert parts[k] == Split(s[i + 1..], ',')[k - 1];
        }
      }
    }
  }

  /** The ids the pattern accepts need no trimming: each comma-separated
      piece is already a run of digits. */
  lemma RecipientsAreParts(p: MassReplyParts)
    requires WellFormed(p)
    ensures Recipients(p) == Split(p.ids, ',')
    ensures forall k :: 0 <= k < |Recipients(p)| ==> AllDigits(Recipients(p)[k])
  {
    var parts := Split(p.ids, ',');
    SplitIdsDigits(p.ids);
    forall k | 0 <= k < |parts| ensures Trim(parts[k]) == parts[k] {
      TrimDigits(parts[k]);
    }
  }

  // ---------------------------------------------------------------------
  // /mreply: delivery
  // ---------------------------------------------------------------------

  /** The name used for `{name}`: the first name of the document with that
      id, else of the first document with that numeric `telegram_id`, else
      "friend"; a failed lookup is ignored. */
  function RecipientName(users: Users, id: string): string {
    match GetDoc(users, id)
    case Threw => FriendName
    case Got(byId) =>
      if byId.Some? then Or(byId.value.firstName, FriendName)
      else
        match QueryTelegramId(users, NumberValues(id))
        case Threw => FriendName
        case Got(byNumber) =>
          if byNumber.Some? then Or(byNumber.value.data.firstName, FriendName) else FriendName
  }

  /** Whose first name `{name}` stands for: the first document whose id is
      the recipient's, else the first whose numeric `telegram_id` is, else
      nobody's and "friend"; "friend" also replaces an empty first name and
      a failed read, so the name is never empty. */
  lemma RecipientNameMeaning(users: Users, id: string)
    ensures RecipientName(users, id) != ""
    ensures !users.up || id == "" ==> RecipientName(users, id) == FriendName
    ensures forall k :: users.up && id != "" && 0 <= k < |users.docs| && users.docs[k].id == id
                        && (forall j :: 0 <= j < k ==> users.docs[j].id != id) ==>
      RecipientName(users, id) == Or(users.docs[k].data.firstName, FriendName)
    ensures forall k :: users.up && id != "" && (forall j :: 0 <= j < |users.docs| ==> users.docs[j].id != id)
                        && 0 <= k < |users.docs| && HasTelegramId(users.docs[k], NumberValues(id))
                        && (forall j :: 0 <= j < k ==> !HasTelegramId(users.docs[j], NumberValues(id))) ==>
      RecipientName(users, id) == Or(users.docs[k].data.firstName, FriendName)
    ensures users.up && id != "" && (forall j :: 0 <= j < |users.docs| ==> users.docs[j].id != id)
            && (forall j :: 0 <= j < |users.docs| ==> !HasTelegramId(users.docs[j], NumberValues(id))) ==>
      RecipientName(users, id) == FriendName
  {
    forall k | users.up && id != "" && 0 <= k < |users.docs| && users.docs[k].id == id
               && (forall j :: 0 <= j < k ==> users.docs[j].id != id)
      ensures RecipientName(users, id) == Or(users.docs[k].data.firstName, FriendName)
    {
      FirstWithIdAt(users.docs, id, k);
    }
    forall k | users.up && id != "" && (forall j :: 0 <= j < |users.docs| ==> users.docs[j].id != id)
               && 0 <= k < |users.docs| && HasTelegramId(users.docs[k], NumberValues(id))
               && (forall j :: 0 <= j < k ==> !HasTelegramId(users.docs[j], NumberValues(id)))
      ensures RecipientName(users, id) == Or(users.docs[k].data.firstName, FriendName)
    {
      FirstWithTelegramIdAt(users.docs, NumberValues(id), k);
    }
  }

  /** The keyboard is attached only when it has a row. */
  function KeyboardMarkup(kb: Keyboard): Option<Keyboard> {
    if |kb| > 0 then Some(kb) else None
  }

  /** The message one recipient gets: the HTML-escaped name in place of
      every `{name}`. */
  function MassSend(ex: Extracted, users: Users, id: string): Action<Text> {
    SendMessage(id, MassReply(FillName(ex.body, EscapeHtml(RecipientName(users, id)))), KeyboardMarkup(ex.keyboard))
  }

  function OutcomeAt(outcomes: seq<SendOutcome>, k: nat): SendOutcome {
    if k < |outcomes| then outcomes[k] else Delivered
  }

  /** The line added to the error report for a failed send. */
  function ErrorLine(id: string, o: SendOutcome): (line: string)
    ensures |line| > 0
  {
    "\n❌ <b>ID " + id + ":</b> " + (if o.Refused? then o.description else "Network Error")
  }

  /** The sends made and the counters and error report after them. */
  datatype Tally = Tally(sends: seq<Action<Text>>, delivered: nat, failed: nat, errors: string)

  /** One send accounted for. */
  function Record(t: Tally, send: Action<Text>, id: string, o: SendOutcome): Tally {
    if o == Delivered then Tally(t.sends + [send], t.delivered + 1, t.failed, t.errors)
    else Tally(t.sends + [send], t.delivered, t.failed + 1, t.errors + ErrorLine(id, o))
  }

  /** The tally after sending `sends[k]` to `ids[k]`, one after the other. */
  function Tallied(sends: seq<Action<Text>>, ids: seq<string>, outcomes: seq<SendOutcome>): Tally
    requires |sends| == |ids|
    decreases |ids|
  {
    if |ids| == 0 then Tally([], 0, 0, "")
    else
      var k := |ids| - 1;
      Record(Tallied(sends[..k], ids[..k], outcomes), sends[k], ids[k], OutcomeAt(outcomes, k))
  }

  /** The message for each recipient. */
  function Messages(ids: seq<string>, ex: Extracted, users: Users): (ms: seq<Action<Text>>)
    ensures |ms| == |ids|
  {
    seq(|ids|, k requires 0 <= k < |ids| => MassSend(ex, users, ids[k]))
  }

  /** The delivery loop's outcome on the recipients `ids`. */
  function Deliveries(ids: seq<string>, ex: Extracted, users: Users, outcomes: seq<SendOutcome>): Tally {
    Tallied(Messages(ids, ex, users), ids, outcomes)
  }

  lemma TalliedSnoc(sends: seq<Action<Text>>, ids: seq<string>, outcomes: seq<SendOutcome>, k: nat)
    requires |sends| == |ids| && k < |ids|
    ensures Tallied(sends[..k + 1], ids[..k + 1], outcomes)
         == Record(Tallied(sends[..k], ids[..k], outcomes), sends[k], ids[k], OutcomeAt(outcomes, k))
  {
    assert sends[..k + 1][..k] == sends[..k];
    assert ids[..k + 1][..k] == ids[..k];
  }

  /** The number of delivered sends among the first `n`. */
  function CountDelivered(outcomes: seq<SendOutcome>, n: nat): nat {
    if n == 0 then 0 else CountDelivered(outcomes, n - 1) + (if OutcomeAt(outcomes, n - 1) == Delivered then 1 else 0)
  }

  /** Every message is sent, once and in order. */
  lemma {:induction false} TalliedSends(sends: seq<Action<Text>>, ids: seq<string>, outcomes: seq<SendOutcome>)
    requires |sends| == |ids|
    ensures Tallied(sends, ids, outcomes).sends == sends
    decreases |ids|
  {
    if |ids| > 0 {
      var k := |ids| - 1;
      TalliedSends(sends[..k], ids[..k], outcomes);
      assert sends[..k] + [sends[k]] == sends;
    }
  }

  /** Each listed id gets exactly one message, in order. */
  lemma DeliveriesSends(ids: seq<string>, ex: Extracted, users: Users, outcomes: seq<SendOutcome>)
    ensures Deliveries(ids, ex, users, outcomes).sends == Messages(ids, ex, users)
    ensures forall k :: 0 <= k < |ids| ==> SendsTo(Deliveries(ids, ex, users, outcomes).sends[k], ids[k])
  {
    TalliedSends(Messages(ids, ex, users), ids, outcomes);
  }

  /** The message to `id` carries the body with the recipient's escaped
      name in place of every `{name}`, and the keyboard exactly when it has
      a row. */
  predicate PersonalMessage(a: Action<Text>, id: string, ex: Extracted, users: Users) {
    a.SendMessage? && a.chat == id
    && a.text == MassReply(FillName(ex.body, EscapeHtml(RecipientName(users, id))))
    && (a.markup.Some? <==> |ex.keyboard| > 0)
    && (a.markup.Some? ==> a.markup.value == ex.keyboard)
  }

  lemma DeliveriesPersonal(ids: seq<string>, ex: Extracted, users: Users, outcomes: seq<SendOutcome>)
    ensures |Deliveries(ids, ex, users, outcomes).sends| == |ids|
    ensures forall k :: 0 <= k < |ids| ==> PersonalMessage(Deliveries(ids, ex, users, outcomes).sends[k], ids[k], ex, users)
  {
    DeliveriesSends(ids, ex, users, outcomes);
  }

  /** Every send is counted once, as delivered or failed, the delivered
      ones being those Telegram accepted; the error report is empty exactly
      when nothing failed. */
  lemma {:induction false} TalliedCounts(sends: seq<Action<Text>>, ids: seq<string>, outcomes: seq<SendOutcome>)
    requires |sends| == |ids|
    ensures Tallied(sends, ids, outcomes).delivered == CountDelivered(outcomes, |ids|)
    ensures Tallied(sends, ids, outcomes).delivered + Tallied(sends, ids, outcomes).failed == |ids|
    ensures Tallied(sends, ids, outcomes).failed == 0 <==> Tallied(sends, ids, outcomes).errors == ""
    decreases |ids|
  {
    if |ids| > 0 {
      var k := |ids| - 1;
      TalliedCounts(sends[..k], ids[..k], outcomes);
      var o := OutcomeAt(outcomes, k);
      if o != Delivered {
        var t := Tallied(sends[..k], ids[..k], outcomes);
        assert |t.errors + ErrorLine(ids[k], o)| > 0;
      }
    }
  }

  /** The delivery loop of `/mreply`: for each id in turn, send its message
      and count the outcome, collecting an error line for each failure. */
  method Deliver(ids: seq<string>, ex: Extracted, users: Users, outcomes: seq<SendOutcome>)
    returns (sends: seq<Action<Text>>, delivered: nat, failed: nat, errors: string)
    ensures Tally(sends, delivered, failed, errors) == Deliveries(ids, ex, users, outcomes)
  {
    ghost var messages := Messages(ids, ex, users);
    sends, delivered, failed, errors := [], 0, 0, "";
    var k := 0;
    while k < |ids|
      invariant 0 <= k <= |ids|
      invariant Tally(sends, delivered, failed, errors) == Tallied(messages[..k], ids[..k], outcomes)
    {
      TalliedSnoc(messages, ids, outcomes, k);
      var send := MassSend(ex, users, ids[k]);
      assert send == messages[k];
      var o := OutcomeAt(outcomes, k);
      sends := sends + [send];
      if o == Delivered {
        delivered := delivered + 1;
      } else {
        failed := failed + 1;
        errors := errors + ErrorLine(ids[k], o);
      }
      k := k + 1;
    }
    assert ids[..|ids|] == ids;
    assert messages[..|ids|] == messages;
  }

  /** The summary: the counts, and the error list only when a send failed. */
  function Summary(t: Tally): Text {
    MassReplySummary(t.delivered, t.failed, if t.failed > 0 then Some(t.errors) else None)
  }

  function MassReplyRun(text: string, env: Env): Response {
    match ParseMassReply(text)
    case None => Response(ToAdmin(env.admin, MassReplyUsage), None, InvalidSyntaxText)
    case Some(p) => MassReplyTo(p, env)
  }

  /** The ids of a parsed `/mreply`: split on commas, each trimmed. */
  function Recipients(p: MassReplyParts): seq<string> {
    TrimEach(Split(p.ids, ','))
  }

  /** A parsed `/mreply`: the notice, the sends, then the summary. */
  function MassReplyTo(p: MassReplyParts, env: Env): Response {
    var t := Deliveries(Recipients(p), Buttons(p.content), env.users, env.massReplyOutcomes);
    Sent(ToAdmin(env.admin, MassReplySending) + t.sends + ToAdmin(env.admin, Summary(t)))
  }

  /** A parsed `/mreply` sends one message to each listed id, in order,
      between the two admin notices, with the recipient's escaped name in
      place of `{name}` and the buttons only when there are any; the summary accounts for every send
      and carries an error list exactly when one failed. */
  lemma MassReplyEffect(p: MassReplyParts, env: Env)
    ensures
      var ids := Recipients(p);
      var t := Deliveries(ids, Buttons(p.content), env.users, env.massReplyOutcomes);
      var r := MassReplyTo(p, env);
      && r.body == OkText && r.maintenanceWrite == None
      && r.actions == ToAdmin(env.admin, MassReplySending) + t.sends + ToAdmin(env.admin, Summary(t))
      && |t.sends| == |ids|
      && (forall k :: 0 <= k < |ids| ==> SendsTo(t.sends[k], ids[k]))
      && (forall k :: 0 <= k < |ids| ==> PersonalMessage(t.sends[k], ids[k], Buttons(p.content), env.users))
      && t.delivered + t.failed == |ids|
      && (Summary(t).errors.Some? <==> t.failed > 0)
  {
    var ids := Recipients(p);
    var ex := Buttons(p.content);
    var t := Deliveries(ids, ex, env.users, env.massReplyOutcomes);
    DeliveriesSends(ids, ex, env.users, env.massReplyOutcomes);
    TalliedCounts(Messages(ids, ex, env.users), ids, env.massReplyOutcomes);
    DeliveriesPersonal(ids, ex, env.users, env.massReplyOutcomes);
  }

  /** A `/mreply` text that does not parse only gets the usage message. */
  lemma MassReplyInvalid(text: string, env: Env)
    requires ParseMassReply(text).None?
    ensures MassReplyRun(text, env) == Response(ToAdmin(env.admin, MassReplyUsage), None, InvalidSyntaxText)
    ensures forall a :: a in MassReplyRun(text, env).actions ==> SendsTo(a, env.admin)
  {
  }
}
