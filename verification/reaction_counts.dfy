/**
 * What the `count` column means. The react route keeps a counter in every
 * row and moves it with `increment`/`decrement` over all rows of an
 * `(emojiName, linkId)` pair; the count a reader sees is the first such
 * row's. As written, a switch carries the user's old, decremented counter
 * into the new emoji's group, so the count read back drifts away from the
 * number of users holding that reaction and can go negative.
 * `ApplyIntended` is the corrected transition: it keeps every row's count
 * equal to the size of its group, so every lookup reports the number of
 * reactions.
 */
module ReactionCounts {
  import opened Wrappers
  import opened UserEmojis
  import opened EmojiRoutes

  /** Every row's count is the number of rows sharing its emoji and link. */
  predicate CountsExact(t: Table) {
    forall i :: 0 <= i < |t| ==> t[i].count == CountWhere(t, ByEmoji(t[i].emojiName, t[i].linkId))
  }

  /** On a table whose counts are exact, the lookup answers with the number
      of rows of the pair, and 404 exactly when there are none. */
  lemma ExactCountsLookup(t: Table, emojiName: string, linkId: int)
    requires CountsExact(t)
    ensures var n := CountWhere(t, ByEmoji(emojiName, linkId));
            LookupEmoji(t, emojiName, linkId) == if n == 0 then NoEmoji else EmojiCount(emojiName, n)
  {
  }

  /** As written: a user reacts with `a` and then switches to `b`. The
      lookup for `b` reports 0 although one row holds it; switching back
      to `a` leaves the row's count at -1. */
  lemma AsWrittenSwitchMiscounts(userId: int, linkId: int, a: string, b: string)
    requires a != b
    ensures var t1 := Apply([], userId, linkId, a).table;
            var t2 := Apply(t1, userId, linkId, b).table;
            var t3 := Apply(t2, userId, linkId, a).table;
            && CountsExact(t1)
            && CountWhere(t2, ByEmoji(b, linkId)) == 1
            && LookupEmoji(t2, b, linkId) == EmojiCount(b, 0)
            && !CountsExact(t2)
            && LookupEmoji(t3, a, linkId) == EmojiCount(a, -1)
  {
    var t0: Table := [];
    assert FindOne(t0, ByOwner(userId, linkId)).None?;
    var t1 := Apply(t0, userId, linkId, a).table;
    assert IsFirstReaction(t0, t1, userId, linkId, a);
    assert t1 == [Row(userId, linkId, a, 1)];
    assert FindOne(t1, ByOwner(userId, linkId)) == Some(0);
    var t2 := Apply(t1, userId, linkId, b).table;
    assert IsSwitch(t1, t2, 0, b);
    assert t2 == [Row(userId, linkId, b, 0)];
    assert FindOne(t2, ByOwner(userId, linkId)) == Some(0);
    assert CountWhere(t2, ByEmoji(b, linkId)) == 1;
    var t3 := Apply(t2, userId, linkId, a).table;
    assert IsSwitch(t2, t3, 0, a);
    assert t3 == [Row(userId, linkId, a, -1)];
    assert FindOne(t3, ByEmoji(a, linkId)) == Some(0);
  }

  /** As written: two users react to a link with the same emoji. The
      first user's row has been incremented twice and the second user's
      once, so the two rows of the pair disagree and the lookup, which may
      read either, can report 1 for two reactions. */
  lemma AsWrittenSameEmojiRowsDisagree(first: int, second: int, linkId: int, e: string)
    requires first != second
    ensures var t1 := Apply([], first, linkId, e).table;
            var t2 := Apply(t1, second, linkId, e).table;
            && t2 == [Row(first, linkId, e, 2), Row(second, linkId, e, 1)]
            && CountWhere(t2, ByEmoji(e, linkId)) == 2
            && !CountsExact(t2)
  {
    var t0: Table := [];
    assert FindOne(t0, ByOwner(first, linkId)).None?;
    var t1 := Apply(t0, first, linkId, e).table;
    assert IsFirstReaction(t0, t1, first, linkId, e);
    assert t1 == [Row(first, linkId, e, 1)];
    assert !Selects(ByOwner(second, linkId), t1[0]);
    assert FindOne(t1, ByOwner(second, linkId)).None?;
    var t2 := Apply(t1, second, linkId, e).table;
    assert IsFirstReaction(t1, t2, second, linkId, e);
    assert t2 == [Row(first, linkId, e, 2), Row(second, linkId, e, 1)];
    assert CountWhere(t2, ByEmoji(e, linkId)) == 2;
    assert t2[1].count != CountWhere(t2, ByEmoji(t2[1].emojiName, t2[1].linkId));
  }

  /** The corrected first reaction: the new row starts at the group's
      current size, then the whole group, new row included, gains one. */
  function FirstIntended(t: Table, userId: int, linkId: int, emojiName: string): (t': Table)
    ensures SameKeys(t', t + [Row(userId, linkId, emojiName, 0)])
  {
    var w := ByEmoji(emojiName, linkId);
    Increment(t + [Row(userId, linkId, emojiName, CountWhere(t, w))], w, 1)
  }

  /** The corrected switch of row `i` to `emojiName`: the old group loses
      one, the new group gains one, and the moved row takes the new
      group's size. */
  function SwitchIntended(t: Table, i: nat, emojiName: string): (t': Table)
    requires i < |t|
    ensures SameKeys(t', t[i := t[i].(emojiName := emojiName)])
    ensures t'[i].count == CountWhere(t, ByEmoji(emojiName, t[i].linkId)) + 1
    ensures forall j :: 0 <= j < |t| && j != i ==>
              t'[j] == Bumped(Bumped(t[j], ByEmoji(t[i].emojiName, t[i].linkId), -1),
                              ByEmoji(emojiName, t[i].linkId), 1)
  {
    var l := t[i].linkId;
    var w := ByEmoji(emojiName, l);
    var t1 := Increment(t, ByEmoji(t[i].emojiName, l), -1);
    var t2 := Increment(t1, w, 1);
    var renamed := t[i := t[i].(emojiName := emojiName)];
    var t' := t2[i := t[i].(emojiName := emojiName, count := CountWhere(t, w) + 1)];
    assert SameKeys(t', renamed) by {
      assert SameKeys(t, t1) && SameKeys(t1, t2);
      assert forall j :: 0 <= j < |t| && j != i ==> t'[j] == t2[j] && renamed[j] == t[j];
    }
    assert forall j :: 0 <= j < |t| && j != i ==> t'[j] == Bumped(t1[j], w, 1);
    t'
  }

  /** The corrected transition. A first reaction creates the row with the
      group's current size before the group is incremented; a switch
      decrements the old group, increments the new one, and gives the
      moved row the new group's size. */
  function ApplyIntended(t: Table, userId: int, linkId: int, emojiName: string): (r: Reply)
    ensures r.status == Ok || r.status == Forbidden
    ensures r.status == Forbidden <==> SameEmojiAgain(t, userId, linkId, emojiName)
    ensures r.status == Forbidden ==> r.table == t
    ensures SameKeys(r.table, Apply(t, userId, linkId, emojiName).table)
  {
    match FindOne(t, ByOwner(userId, linkId))
    case Some(i) =>
      if t[i].emojiName == emojiName then Reply(Forbidden, t)
      else
        assert IsSwitch(t, Apply(t, userId, linkId, emojiName).table, i, emojiName);
        Reply(Ok, SwitchIntended(t, i, emojiName))
    case None =>
      Reply(Ok, FirstIntended(t, userId, linkId, emojiName))
  }

  /** The corrected transition keeps every count exact. */
  lemma {:induction false} IntendedKeepsCountsExact(t: Table, userId: int, linkId: int, emojiName: string)
    requires CountsExact(t)
    ensures CountsExact(ApplyIntended(t, userId, linkId, emojiName).table)
  {
    match FindOne(t, ByOwner(userId, linkId))
    case None =>
      FirstReactionKeepsCountsExact(t, userId, linkId, emojiName);
    case Some(i) =>
      if t[i].emojiName != emojiName {
        SwitchKeepsCountsExact(t, i, emojiName);
      }
  }

  /** The corrected transition changes the same keys as the route, so it
      keeps the one-row-per-user-and-link rule too. */
  lemma IntendedKeepsOneRowPerOwner(t: Table, userId: int, linkId: int, emojiName: string)
    requires OneRowPerOwner(t)
    ensures OneRowPerOwner(ApplyIntended(t, userId, linkId, emojiName).table)
  {
    ApplyKeepsOneRowPerOwner(t, userId, linkId, emojiName);
    SameKeysKeepOneRowPerOwner(Apply(t, userId, linkId, emojiName).table,
                               ApplyIntended(t, userId, linkId, emojiName).table);
  }

  /** A first reaction: every pre-existing row of the group gains one, and
      the new row arrives with the group's new size. */
  lemma {:induction false} FirstReactionKeepsCountsExact(t: Table, userId: int, linkId: int, emojiName: string)
    requires CountsExact(t)
    ensures CountsExact(FirstIntended(t, userId, linkId, emojiName))
  {
    var w := ByEmoji(emojiName, linkId);
    var row := Row(userId, linkId, emojiName, CountWhere(t, w));
    var t1 := t + [row];
    var t' := Increment(t1, w, 1);
    forall i | 0 <= i < |t'|
      ensures t'[i].count == CountWhere(t', ByEmoji(t'[i].emojiName, t'[i].linkId))
    {
      var k := ByEmoji(t1[i].emojiName, t1[i].linkId);
      SameKeysSameSelection(t1, t', k);
      CountWhereAppend(t, row, k);
      if i < |t| {
        assert t1[i] == t[i];
        assert Selects(k, row) <==> Selects(w, t[i]);
      }
    }
  }

  /** A switch of row `i` to `emojiName`: the old group shrinks by one,
      the new one grows by one, and the moved row takes the new size. */
  lemma {:induction false} SwitchKeepsCountsExact(t: Table, i: nat, emojiName: string)
    requires CountsExact(t)
    requires i < |t| && t[i].emojiName != emojiName
    ensures CountsExact(SwitchIntended(t, i, emojiName))
  {
    var w := ByEmoji(emojiName, t[i].linkId);
    var p := ByEmoji(t[i].emojiName, t[i].linkId);
    var renamed := t[i := t[i].(emojiName := emojiName)];
    var t' := SwitchIntended(t, i, emojiName);
    forall j | 0 <= j < |t'|
      ensures t'[j].count == CountWhere(t', ByEmoji(t'[j].emojiName, t'[j].linkId))
    {
      var k := ByEmoji(t'[j].emojiName, t'[j].linkId);
      SameKeysSameSelection(t', renamed, k);
      CountWhereUpdate(t, i, renamed[i], k);
      if j != i {
        assert k == ByEmoji(t[j].emojiName, t[j].linkId);
        if k == p {
          assert !Selects(w, t[j]);
        } else if k == w {
          assert !Selects(p, t[j]);
        } else {
          assert !Selects(p, t[j]) && !Selects(w, t[j]);
        }
      }
    }
  }

  /** The route's scenario under the corrected transition: a first
      reaction counts 1, the same emoji again is refused with the table
      unchanged, and a switch moves the reaction from one emoji to the
      other. */
  lemma IntendedScenario(userId: int, linkId: int, a: string, b: string)
    requires a != b
    ensures var r1 := ApplyIntended([], userId, linkId, a);
            var r2 := ApplyIntended(r1.table, userId, linkId, a);
            var r3 := ApplyIntended(r1.table, userId, linkId, b);
            && r1.status == Ok && LookupEmoji(r1.table, a, linkId) == EmojiCount(a, 1)
            && r2.status == Forbidden && r2.table == r1.table
            && r3.status == Ok
            && LookupEmoji(r3.table, a, linkId) == NoEmoji
            && LookupEmoji(r3.table, b, linkId) == EmojiCount(b, 1)
  {
    var t0: Table := [];
    assert FindOne(t0, ByOwner(userId, linkId)).None?;
    var t1 := FirstIntended(t0, userId, linkId, a);
    assert t1[0] == Row(userId, linkId, a, 1);
    assert FindOne(t1, ByOwner(userId, linkId)) == Some(0);
    assert !Selects(ByEmoji(b, linkId), t1[0]);
    assert CountWhere(t1, ByEmoji(b, linkId)) == 0;
    var t3 := SwitchIntended(t1, 0, b);
    assert t3[0] == Row(userId, linkId, b, 1);
    assert !Selects(ByEmoji(a, linkId), t3[0]);
  }
}
