/** A read-only snapshot of the `users` collection, and the handful of
    Firestore reads the handlers make against it: a lookup by document id,
    an equality or `in` query on `telegram_id` limited to one result, and
    `count()` queries. Firestore returns documents in a fixed order, so the
    collection is a sequence; `limit(1)` yields the first match in it. A
    read either succeeds or throws: `up == false` stands for a collection
    whose every read throws. */
module Store {
  import opened JsStrings

  /** `telegram_id` was written as a number by some versions of the app and
      as a string by others. */
  datatype TelegramId = NumId(n: int) | StrId(s: string)

  /** A user document. Absent or empty string fields are "", an absent
      `invite_count` is 0, an absent `total_score` is None (Firestore range
      filters skip documents without the field). */
  datatype UserRecord = UserRecord(
    firstName: string,
    username: string,
    telegramId: Option<TelegramId>,
    totalScore: Option<int>,
    inviteCount: int,
    referrerId: string,
    isBanned: bool)

  datatype Doc = Doc(id: string, data: UserRecord)

  datatype Users = Users(up: bool, docs: seq<Doc>)

  /** The outcome of a read that may throw. */
  datatype Read<T> = Threw | Got(value: T)

  /** `d.total_score || 0`. */
  function Score(u: UserRecord): int {
    if u.totalScore.Some? then u.totalScore.value else 0
  }

  // ---------------------------------------------------------------------
  // Reads
  // ---------------------------------------------------------------------

  function FirstWithId(docs: seq<Doc>, id: string): (r: Option<UserRecord>)
    ensures r.None? <==> forall k :: 0 <= k < |docs| ==> docs[k].id != id
    ensures r.Some? ==> exists k :: 0 <= k < |docs| && docs[k].id == id && docs[k].data == r.value
  {
    if |docs| == 0 then None
    else if docs[0].id == id then Some(docs[0].data)
    else
      var r := FirstWithId(docs[1..], id);
      assert forall k :: 1 <= k < |docs| ==> docs[k] == docs[1..][k - 1];
      r
  }

  /** `users.doc(id).get()`: Firestore refuses an empty document path. */
  function GetDoc(users: Users, id: string): Read<Option<UserRecord>> {
    if !users.up || id == "" then Threw else Got(FirstWithId(users.docs, id))
  }

  predicate HasTelegramId(d: Doc, values: set<TelegramId>) {
    d.data.telegramId.Some? && d.data.telegramId.value in values
  }

  function FirstWithTelegramId(docs: seq<Doc>, values: set<TelegramId>): (r: Option<Doc>)
    ensures r.None? <==> forall k :: 0 <= k < |docs| ==> !HasTelegramId(docs[k], values)
    ensures r.Some? ==> r.value in docs && HasTelegramId(r.value, values)
  {
    if |docs| == 0 then None
    else if HasTelegramId(docs[0], values) then Some(docs[0])
    else
      var r := FirstWithTelegramId(docs[1..], values);
      assert forall k :: 1 <= k < |docs| ==> docs[k] == docs[1..][k - 1];
      r
  }

  /** `where('telegram_id', 'in', values).limit(1).get()`; an equality
      query is the one-value case. */
  function QueryTelegramId(users: Users, values: set<TelegramId>): Read<Option<Doc>> {
    if !users.up then Threw else Got(FirstWithTelegramId(users.docs, values))
  }

  /** The lookup by id yields the first document with that id. */
  lemma {:induction false} FirstWithIdAt(docs: seq<Doc>, id: string, k: nat)
    requires k < |docs| && docs[k].id == id
    requires forall j :: 0 <= j < k ==> docs[j].id != id
    ensures FirstWithId(docs, id) == Some(docs[k].data)
    decreases k
  {
    if k > 0 {
      assert docs[1..][k - 1] == docs[k];
      FirstWithIdAt(docs[1..], id, k - 1);
    }
  }

  /** The query by `telegram_id` yields the first document that has one of
      the values. */
  lemma {:induction false} FirstWithTelegramIdAt(docs: seq<Doc>, values: set<TelegramId>, k: nat)
    requires k < |docs| && HasTelegramId(docs[k], values)
    requires forall j :: 0 <= j < k ==> !HasTelegramId(docs[j], values)
    ensures FirstWithTelegramId(docs, values) == Some(docs[k])
    decreases k
  {
    if k > 0 {
      assert docs[1..][k - 1] == docs[k];
      FirstWithTelegramIdAt(docs[1..], values, k - 1);
    }
  }

  /** The query values `Number(s)` contributes: none when it is `NaN`. */
  function NumberValues(s: string): set<TelegramId> {
    var n := NumberOf(s);
    if n.Some? then {NumId(n.value)} else {}
  }

  // ---------------------------------------------------------------------
  // The three-step existence check
  // ---------------------------------------------------------------------

  /** Whether the chat has a user document: first by document id, then by a
      numeric `telegram_id`, then by a string `telegram_id`; each step runs
      only when the previous one missed. */
  function UserExists(users: Users, chat: string): Read<bool> {
    match GetDoc(users, chat)
    case Threw => Threw
    case Got(byId) =>
      if byId.Some? then Got(true)
      else
        match QueryTelegramId(users, NumberValues(chat))
        case Threw => Threw
        case Got(byNumber) =>
          if byNumber.Some? then Got(true)
          else
            match QueryTelegramId(users, {StrId(chat)})
            case Threw => Threw
            case Got(byString) => Got(byString.Some?)
  }

  /** A document that answers for `chat`, in any of the three ways. */
  predicate Registers(d: Doc, chat: string) {
    d.id == chat || HasTelegramId(d, NumberValues(chat) + {StrId(chat)})
  }

  /** The existence check throws exactly when the collection is unreadable
      (or the chat id is empty), and otherwise finds the chat exactly when
      some document registers it. */
  lemma UserExistsMeaning(users: Users, chat: string)
    ensures UserExists(users, chat).Threw? <==> !users.up || chat == ""
    ensures UserExists(users, chat).Got? ==>
      (UserExists(users, chat).value <==> exists d :: d in users.docs && Registers(d, chat))
  {
    if users.up && chat != "" {
      var byId := FirstWithId(users.docs, chat);
      var byNumber := FirstWithTelegramId(users.docs, NumberValues(chat));
      var byString := FirstWithTelegramId(users.docs, {StrId(chat)});
      if exists d :: d in users.docs && Registers(d, chat) {
        var d :| d in users.docs && Registers(d, chat);
        var k :| 0 <= k < |users.docs| && users.docs[k] == d;
        if d.id != chat && d.data.telegramId.value !in NumberValues(chat) {
          assert HasTelegramId(users.docs[k], {StrId(chat)});
        }
      } else {
        forall k | 0 <= k < |users.docs|
          ensures users.docs[k].id != chat
          ensures !HasTelegramId(users.docs[k], NumberValues(chat))
          ensures !HasTelegramId(users.docs[k], {StrId(chat)})
        {
          assert !Registers(users.docs[k], chat);
        }
      }
    }
  }

  // ---------------------------------------------------------------------
  // count() queries
  // ---------------------------------------------------------------------

  /** `where('is_banned', '==', true).count()`. */
  function CountBanned(docs: seq<Doc>): (n: nat)
    ensures n <= |docs|
  {
    if |docs| == 0 then 0 else (if docs[0].data.isBanned then 1 else 0) + CountBanned(docs[1..])
  }

  /** A single document counts exactly when it is banned. */
  lemma CountBannedOne(d: Doc)
    ensures CountBanned([d]) == if d.data.isBanned then 1 else 0
  {
  }

  /** The banned count of two runs of documents is the sum of theirs; with
      `CountBannedOne` this fixes the count as the number of banned
      documents. */
  lemma {:induction false} CountBannedAppend(a: seq<Doc>, b: seq<Doc>)
    ensures CountBanned(a + b) == CountBanned(a) + CountBanned(b)
    decreases |a|
  {
    if |a| == 0 {
      assert a + b == b;
    } else {
      assert (a + b)[1..] == a[1..] + b;
      CountBannedAppend(a[1..], b);
    }
  }

  function CountNotBanned(docs: seq<Doc>): nat {
    if |docs| == 0 then 0 else (if docs[0].data.isBanned then 0 else 1) + CountNotBanned(docs[1..])
  }

  /** Every user is either banned or not, so total minus banned is the
      number of users not banned. */
  lemma {:induction false} ActiveIsNotBanned(docs: seq<Doc>)
    ensures |docs| - CountBanned(docs) == CountNotBanned(docs)
  {
    if |docs| > 0 {
      ActiveIsNotBanned(docs[1..]);
    }
  }

  /** `where('total_score', '>', score).count()`: documents without a score
      are not counted. */
  function CountHigher(docs: seq<Doc>, score: int): (n: nat)
    ensures n <= |docs|
  {
    if |docs| == 0 then 0
    else
      var d := docs[0].data;
      (if d.totalScore.Some? && d.totalScore.value > score then 1 else 0) + CountHigher(docs[1..], score)
  }

  /** A single document counts exactly when it has a score above `score`. */
  lemma CountHigherOne(d: Doc, score: int)
    ensures CountHigher([d], score) == if d.data.totalScore.Some? && d.data.totalScore.value > score then 1 else 0
  {
  }

  /** The count of higher scores over two runs of documents is the sum of
      theirs; with `CountHigherOne` this fixes the count as the number of
      documents with a strictly higher score. */
  lemma {:induction false} CountHigherAppend(a: seq<Doc>, b: seq<Doc>, score: int)
    ensures CountHigher(a + b, score) == CountHigher(a, score) + CountHigher(b, score)
    decreases |a|
  {
    if |a| == 0 {
      assert a + b == b;
    } else {
      assert (a + b)[1..] == a[1..] + b;
      CountHigherAppend(a[1..], b, score);
    }
  }

  /** The rank `/check_user` reports: one more than the number of strictly
      higher scores. */
  function Rank(docs: seq<Doc>, score: int): (r: nat)
    ensures r == CountHigher(docs, score) + 1
    ensures 1 <= r <= |docs| + 1
  {
    CountHigher(docs, score) + 1
  }

  /** A better score never has a worse rank. */
  lemma {:induction false} RankMonotone(docs: seq<Doc>, better: int, worse: int)
    requires better >= worse
    ensures Rank(docs, better) <= Rank(docs, worse)
  {
    if |docs| > 0 {
      RankMonotone(docs[1..], better, worse);
    }
  }

  /** Rank 1 exactly when nobody has a strictly higher score. */
  lemma {:induction false} RankOneIffTop(docs: seq<Doc>, score: int)
    ensures Rank(docs, score) == 1 <==>
      forall k :: 0 <= k < |docs| ==> docs[k].data.totalScore.None? || docs[k].data.totalScore.value <= score
  {
    if |docs| > 0 {
      RankOneIffTop(docs[1..], score);
      assert forall k :: 1 <= k < |docs| ==> docs[k] == docs[1..][k - 1];
    }
  }
}
