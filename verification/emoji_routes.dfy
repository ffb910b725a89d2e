/**
 * The emoji routes: the reaction transition `POST /emoji/:emojiName/react`,
 * the single lookup `GET /emoji/:emojiName/:linkId` and the listing
 * `GET /emojis`, each as a pure function of the `UserEmojis` table.
 * Token verification is a parameter: `verify` returns the decoded user id,
 * or `None` when verification throws or the token carries no id.
 */
module EmojiRoutes {
  import opened Wrappers
  import opened JsStrings
  import opened UserEmojis

  /** The answers the routes give: 200, 400, 403, 404 and 500. */
  datatype Status = Ok | BadRequest | Forbidden | NotFound | ServerError

  /** A route's answer together with the table after the request. */
  datatype Reply = Reply(status: Status, table: Table)

  /** `req.headers.authorization?.split(" ")[1]`: the piece after the first
      space and before the next one; absent when there is no header or the
      header holds no space. */
  function BearerToken(authorization: Option<string>): (token: Option<string>)
    ensures token.None? <==> authorization.None? || ' ' !in authorization.value
    ensures token.Some? ==> ' ' !in token.value
  {
    if authorization.None? then None
    else
      var parts := Split(authorization.value, ' ');
      SplitManyIffSeparator(authorization.value, ' ');
      if |parts| > 1 then Some(parts[1]) else None
  }

  /** A header `<scheme> <token>`, possibly followed by more space-separated
      pieces, yields exactly `<token>`. */
  lemma BearerTokenOfHeader(parts: seq<string>)
    requires |parts| >= 2
    requires forall i :: 0 <= i < |parts| ==> ' ' !in parts[i]
    ensures BearerToken(Some(Join(parts, ' '))) == Some(parts[1])
  {
    SplitJoin(parts, ' ');
  }

  /** `!linkId` is false: the body carries a linkId and it is not 0. */
  predicate LinkIdGiven(linkId: Option<int>) {
    linkId.Some? && linkId.value != 0
  }

  /** The request's user already holds a row for the link, and the first
      such row carries the requested emoji. */
  predicate SameEmojiAgain(t: Table, userId: int, linkId: int, emojiName: string) {
    var k := FindOne(t, ByOwner(userId, linkId));
    k.Some? && t[k.value].emojiName == emojiName
  }

  /** `t'` is `t` after a first reaction: the new row (count 0) is
      appended, then every row of `(emojiName, linkId)`, the new one
      included, gains one. */
  predicate IsFirstReaction(t: Table, t': Table, userId: int, linkId: int, emojiName: string) {
    && |t'| == |t| + 1
    && t'[|t|] == Row(userId, linkId, emojiName, 1)
    && forall j :: 0 <= j < |t| ==> t'[j] == Bumped(t[j], ByEmoji(emojiName, linkId), 1)
  }

  /** `t'` is `t` after the user of row `i` switched to `emojiName`: every
      row of the previous emoji on the link loses one and every row of the
      new emoji gains one, both before the rename, so row `i` is renamed
      with one less than it had. */
  predicate IsSwitch(t: Table, t': Table, i: nat, emojiName: string)
    requires i < |t|
  {
    var prev := t[i].emojiName;
    var l := t[i].linkId;
    && |t'| == |t|
    && t'[i] == t[i].(emojiName := emojiName, count := t[i].count - 1)
    && forall j :: 0 <= j < |t| && j != i ==>
         t'[j] == Bumped(Bumped(t[j], ByEmoji(prev, l), -1), ByEmoji(emojiName, l), 1)
  }

  /** The body of the `try` block once the token has been decoded to
      `userId`. Only the renamed `emojiName` is written back by `save()`,
      so the row keeps the count the decrement gave it. */
  function Apply(t: Table, userId: int, linkId: int, emojiName: string): (r: Reply)
    ensures r.status == Ok || r.status == Forbidden
    ensures r.status == Forbidden <==> SameEmojiAgain(t, userId, linkId, emojiName)
    ensures r.status == Forbidden ==> r.table == t
    ensures FindOne(t, ByOwner(userId, linkId)).None? ==>
              IsFirstReaction(t, r.table, userId, linkId, emojiName)
    ensures r.status == Ok && FindOne(t, ByOwner(userId, linkId)).Some? ==>
              IsSwitch(t, r.table, FindOne(t, ByOwner(userId, linkId)).value, emojiName)
  {
    match FindOne(t, ByOwner(userId, linkId))
    case Some(i) =>
      var existing := t[i];
      if existing.emojiName == emojiName then Reply(Forbidden, t)
      else
        var t1 := Increment(t, ByEmoji(existing.emojiName, linkId), -1);
        var t2 := Increment(t1, ByEmoji(emojiName, linkId), 1);
        Reply(Ok, t2[i := t2[i].(emojiName := emojiName)])
    case None =>
      var row := Create(Some(userId), Some(linkId), Some(emojiName), None).value;
      var t1 := t + [row];
      var t2 := Increment(t1, ByEmoji(emojiName, linkId), 1);
      assert t2[|t|] == Bumped(row, ByEmoji(emojiName, linkId), 1);
      Reply(Ok, t2)
  }

  /** `POST /emoji/:emojiName/react`. 400 when the body has no (truthy)
      linkId or the Authorization header no (truthy) token; 500 when the
      token does not verify; otherwise the transition of `Apply`. Every
      answer but 200 leaves the table as it was. */
  function React(t: Table, emojiName: string, linkId: Option<int>, authorization: Option<string>,
                 verify: string -> Option<int>): (r: Reply)
    ensures r.status == BadRequest <==> !LinkIdGiven(linkId) || !Truthy(BearerToken(authorization))
    ensures r.status == ServerError <==>
              && LinkIdGiven(linkId) && Truthy(BearerToken(authorization))
              && verify(BearerToken(authorization).value).None?
    ensures r.status == Forbidden <==>
              && LinkIdGiven(linkId) && Truthy(BearerToken(authorization))
              && var u := verify(BearerToken(authorization).value);
                 u.Some? && SameEmojiAgain(t, u.value, linkId.value, emojiName)
    ensures r.status != NotFound
    ensures r.status != Ok ==> r.table == t
    ensures r.status == Ok ==>
              r == Apply(t, verify(BearerToken(authorization).value).value, linkId.value, emojiName)
  {
    var token := BearerToken(authorization);
    if !LinkIdGiven(linkId) || !Truthy(token) then Reply(BadRequest, t)
    else
      match verify(token.value)
      case None => Reply(ServerError, t)
      case Some(userId) => Apply(t, userId, linkId.value, emojiName)
  }

  /** Reacting never gives a user a second row for the same link. */
  lemma {:induction false} ApplyKeepsOneRowPerOwner(t: Table, userId: int, linkId: int, emojiName: string)
    requires OneRowPerOwner(t)
    ensures OneRowPerOwner(Apply(t, userId, linkId, emojiName).table)
  {
    var r := Apply(t, userId, linkId, emojiName);
    var k := FindOne(t, ByOwner(userId, linkId));
    if r.status == Ok {
      if k.None? {
        forall i, j | 0 <= i < |r.table| && 0 <= j < |r.table| && i != j
          ensures !(r.table[i].userId == r.table[j].userId && r.table[i].linkId == r.table[j].linkId)
        {
          if i == |t| {
            assert !Selects(ByOwner(userId, linkId), t[j]);
          } else if j == |t| {
            assert !Selects(ByOwner(userId, linkId), t[i]);
          }
        }
      } else {
        assert IsSwitch(t, r.table, k.value, emojiName);
      }
    }
  }

  /** The route keeps the one-row-per-user-and-link rule, whatever it answers. */
  lemma ReactKeepsOneRowPerOwner(t: Table, emojiName: string, linkId: Option<int>,
                                 authorization: Option<string>, verify: string -> Option<int>)
    requires OneRowPerOwner(t)
    ensures OneRowPerOwner(React(t, emojiName, linkId, authorization, verify).table)
  {
    var token := BearerToken(authorization);
    if LinkIdGiven(linkId) && Truthy(token) && verify(token.value).Some? {
      ApplyKeepsOneRowPerOwner(t, verify(token.value).value, linkId.value, emojiName);
    }
  }

  /** After a successful reaction the user's row for the link carries the
      requested emoji; when the table kept the one-row rule it is the only
      such row. */
  lemma {:induction false} ApplyRecordsEmoji(t: Table, userId: int, linkId: int, emojiName: string)
    requires Apply(t, userId, linkId, emojiName).status == Ok
    ensures var t' := Apply(t, userId, linkId, emojiName).table;
            var k := FindOne(t', ByOwner(userId, linkId));
            k.Some? && t'[k.value].emojiName == emojiName
  {
    var t' := Apply(t, userId, linkId, emojiName).table;
    var w := ByOwner(userId, linkId);
    match FindOne(t, w)
    case None =>
      assert IsFirstReaction(t, t', userId, linkId, emojiName);
      assert forall j :: 0 <= j < |t| ==> !Selects(w, t'[j]) by {
        forall j | 0 <= j < |t| ensures !Selects(w, t'[j]) {
          assert !Selects(w, t[j]);
        }
      }
      assert Selects(w, t'[|t|]);
    case Some(i) =>
      assert IsSwitch(t, t', i, emojiName);
      assert Selects(w, t'[i]);
      assert forall j :: 0 <= j < i ==> !Selects(w, t'[j]) by {
        forall j | 0 <= j < i ensures !Selects(w, t'[j]) {
          assert !Selects(w, t[j]);
        }
      }
  }

  /** Under the one-row rule, the route refuses (403) exactly when the user
      already reacted to the link with the same emoji. */
  lemma ForbiddenIffSameEmoji(t: Table, userId: int, linkId: int, emojiName: string)
    requires OneRowPerOwner(t)
    ensures Apply(t, userId, linkId, emojiName).status == Forbidden <==>
            exists i :: 0 <= i < |t| && t[i].userId == userId && t[i].linkId == linkId && t[i].emojiName == emojiName
  {
    var k := FindOne(t, ByOwner(userId, linkId));
    if exists i :: 0 <= i < |t| && t[i].userId == userId && t[i].linkId == linkId && t[i].emojiName == emojiName {
      var i :| 0 <= i < |t| && t[i].userId == userId && t[i].linkId == linkId && t[i].emojiName == emojiName;
      assert Selects(ByOwner(userId, linkId), t[i]);
      assert k.Some? && k.value == i;
    }
  }

  /** Rows of other links, and rows whose emoji is neither the requested one
      nor the user's previous one, come out of a reaction unchanged. */
  lemma ApplyLeavesOtherRows(t: Table, userId: int, linkId: int, emojiName: string, j: nat)
    requires j < |t|
    requires || t[j].linkId != linkId
             || (&& t[j].emojiName != emojiName
                 && forall k :: 0 <= k < |t| && Selects(ByOwner(userId, linkId), t[k]) ==>
                      t[k].emojiName != t[j].emojiName)
    ensures Apply(t, userId, linkId, emojiName).table[j] == t[j]
  {
    var r := Apply(t, userId, linkId, emojiName);
    var k := FindOne(t, ByOwner(userId, linkId));
    if r.status == Ok && k.Some? {
      assert IsSwitch(t, r.table, k.value, emojiName);
    }
  }

  /** The body of `GET /emoji/:emojiName/:linkId`. */
  datatype Lookup = NoEmoji | EmojiCount(emojiName: string, count: int)

  /** `GET /emoji/:emojiName/:linkId`: the count of the first row of
      `(emojiName, linkId)`, or 404 when there is none. */
  function LookupEmoji(t: Table, emojiName: string, linkId: int): (r: Lookup)
    ensures r.NoEmoji? <==> CountWhere(t, ByEmoji(emojiName, linkId)) == 0
    ensures r.EmojiCount? ==> r.emojiName == emojiName
    ensures r.EmojiCount? ==>
              exists i :: 0 <= i < |t| && Selects(ByEmoji(emojiName, linkId), t[i]) && r.count == t[i].count
                && forall j :: 0 <= j < i ==> !Selects(ByEmoji(emojiName, linkId), t[j])
  {
    match FindOne(t, ByEmoji(emojiName, linkId))
    case None => NoEmoji
    case Some(i) => EmojiCount(t[i].emojiName, t[i].count)
  }

  /** One element of the `GET /emojis` answer: the three selected columns. */
  datatype Entry = Entry(emojiName: string, count: int, linkId: int)

  function Project(row: Row): Entry {
    Entry(row.emojiName, row.count, row.linkId)
  }

  function ProjectAll(t: Table): (r: seq<Entry>)
    ensures |r| == |t|
    ensures forall i :: 0 <= i < |t| ==> r[i] == Project(t[i])
  {
    if |t| == 0 then [] else [Project(t[0])] + ProjectAll(t[1..])
  }

  predicate ByCountDescending(s: seq<Entry>) {
    forall i, j :: 0 <= i < j < |s| ==> s[i].count >= s[j].count
  }

  /** Places `e` into a list already ordered by count, descending. */
  function Insert(e: Entry, s: seq<Entry>): (r: seq<Entry>)
    requires ByCountDescending(s)
    ensures ByCountDescending(r)
    ensures multiset(r) == multiset(s) + multiset{e}
    ensures |r| == |s| + 1
    ensures r[0] == e || (|s| > 0 && r[0] == s[0])
  {
    if |s| == 0 || e.count >= s[0].count then [e] + s
    else
      var rest := Insert(e, s[1..]);
      assert s == [s[0]] + s[1..];
      assert multiset([s[0]] + rest) == multiset{s[0]} + multiset(rest);
      [s[0]] + rest
  }

  /** Orders entries by count, descending. */
  function SortByCount(s: seq<Entry>): (r: seq<Entry>)
    ensures ByCountDescending(r)
    ensures multiset(r) == multiset(s)
  {
    if |s| == 0 then []
    else
      assert s == [s[0]] + s[1..];
      Insert(s[0], SortByCount(s[1..]))
  }

  /** `GET /emojis`: every row's `(emojiName, count, linkId)`, ordered by
      count, non-increasing. Rows of equal count may come in any order. */
  function ListAll(t: Table): (r: seq<Entry>)
    ensures |r| == |t|
    ensures ByCountDescending(r)
    ensures multiset(r) == multiset(ProjectAll(t))
  {
    var r := SortByCount(ProjectAll(t));
    assert |r| == |multiset(r)|;
    r
  }
}
