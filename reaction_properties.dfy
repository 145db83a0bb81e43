/**
 * What the reaction toggle promises: its four cases, the invariant it keeps, its
 * effect on each pill's reactors and count, on the order of the pills, and what
 * two toggles in a row give back.
 */
module ReactionProperties {
  import opened Primitives
  import opened Reactions

  // ---------------------------------------------------------------------------
  // Lookups after the three edits the toggle makes to the list

  /** The lookup by emoji is `indexOf` on the list's emojis. */
  lemma FindIndexEmojis(rs: seq<Reaction>, emoji: string)
    ensures FindIndex(rs, emoji) == IndexOf(Emojis(rs), emoji)
  {
    var es := Emojis(rs);
    assert |es| == |rs| && forall k :: 0 <= k < |rs| ==> es[k] == rs[k].emoji;
  }

  lemma EmojisAppend(rs: seq<Reaction>, entry: Reaction)
    ensures Emojis(rs + [entry]) == Emojis(rs) + [entry.emoji]
  {
    assert forall k :: 0 <= k < |rs| ==> (rs + [entry])[k] == rs[k];
  }

  lemma EmojisUpdate(rs: seq<Reaction>, i: nat, users: seq<MemberId>)
    requires i < |rs|
    ensures Emojis(rs[i := rs[i].(users := users)]) == Emojis(rs)
  {
  }

  lemma EmojisRemoveAt(rs: seq<Reaction>, i: nat)
    requires i < |rs|
    ensures Emojis(RemoveAt(rs, i)) == RemoveAt(Emojis(rs), i)
  {
  }

  lemma UsersAppend(rs: seq<Reaction>, entry: Reaction, x: string)
    ensures Users(rs + [entry], x) ==
      if x == entry.emoji && x !in Emojis(rs) then entry.users else Users(rs, x)
  {
    EmojisAppend(rs, entry);
    IndexOfAppend(Emojis(rs), entry.emoji, x);
    FindIndexEmojis(rs, x);
    FindIndexEmojis(rs + [entry], x);
    if x in Emojis(rs) {
      var j := FindIndex(rs, x);
      assert (rs + [entry])[j] == rs[j];
    }
  }

  /** Lists with the same emojis at the same positions find every emoji at the same position. */
  lemma FindIndexSameEmojis(a: seq<Reaction>, b: seq<Reaction>, x: string)
    requires |a| == |b| && forall k :: 0 <= k < |a| ==> a[k].emoji == b[k].emoji
    ensures FindIndex(a, x) == FindIndex(b, x)
  {
  }

  lemma UsersUpdate(rs: seq<Reaction>, i: nat, users: seq<MemberId>, x: string)
    requires i < |rs|
    ensures Users(rs[i := rs[i].(users := users)], x) ==
      if FindIndex(rs, x) == i then users else Users(rs, x)
  {
    var r := rs[i := rs[i].(users := users)];
    FindIndexSameEmojis(r, rs, x);
  }

  lemma UsersRemoveAt(rs: seq<Reaction>, i: nat, x: string)
    requires i < |rs| && x != rs[i].emoji
    ensures Users(RemoveAt(rs, i), x) == Users(rs, x)
  {
    var r := RemoveAt(rs, i);
    var j := FindIndex(rs, x);
    if j == -1 {
      forall k | 0 <= k < |r| ensures r[k].emoji != x {
        assert r[k] == rs[if k < i then k else k + 1];
      }
      assert FindIndex(r, x) == -1;
    } else {
      var j' := if j < i then j else j - 1;
      assert r[j'] == rs[j];
      forall k | 0 <= k < j' ensures r[k].emoji != x {
        assert r[k] == rs[if k < i then k else k + 1];
      }
      assert FindIndex(r, x) == j';
    }
  }

  /** In a list without repeated emojis, any entry for `emoji` is the one the lookup finds. */
  lemma UsersAt(rs: seq<Reaction>, emoji: string, k: nat)
    requires UniqueEmojis(rs)
    requires k < |rs| && rs[k].emoji == emoji
    ensures FindIndex(rs, emoji) == k && Users(rs, emoji) == rs[k].users
  {
    var es := Emojis(rs);
    assert |es| == |rs| && forall j :: 0 <= j < |rs| ==> es[j] == rs[j].emoji;
  }

  /** In a list without repeated emojis, dropping an entry leaves its emoji without reactors. */
  lemma UsersRemoveAtGone(rs: seq<Reaction>, i: nat)
    requires i < |rs| && UniqueEmojis(rs)
    ensures rs[i].emoji !in Emojis(RemoveAt(rs, i))
    ensures Users(RemoveAt(rs, i), rs[i].emoji) == []
  {
    EmojisRemoveAt(rs, i);
    var es := Emojis(rs);
    assert es[i] == rs[i].emoji;
    RemoveAtNotIn(es, i);
    FindIndexEmojis(RemoveAt(rs, i), rs[i].emoji);
  }

  /** While every entry has reactors, an emoji has a pill exactly when somebody reacted with it. */
  lemma HasPill(rs: seq<Reaction>, emoji: string)
    requires NonEmptyEntries(rs)
    ensures emoji in Emojis(rs) <==> Users(rs, emoji) != []
  {
    FindIndexEmojis(rs, emoji);
  }

  // ---------------------------------------------------------------------------
  // The cases of the toggle

  /** An emoji nobody has used yet gets a new pill at the end, with the member as its only reactor. */
  lemma ToggleAppendsEntry(rs: seq<Reaction>, emoji: string, member: MemberId)
    requires forall k :: 0 <= k < |rs| ==> rs[k].emoji != emoji
    ensures Toggled(rs, emoji, member) == rs + [Reaction(emoji, [member])]
  {
  }

  /**
   * When `k` is the first entry for `emoji`: an absent member is appended to its
   * users; a present member's first occurrence is removed; and if the member was
   * its only reactor the entry is dropped, the others keeping their order.
   * Nothing else in the list changes.
   */
  lemma ToggleExistingEntry(rs: seq<Reaction>, emoji: string, member: MemberId, k: nat)
    requires k < |rs| && rs[k].emoji == emoji
    requires forall j :: 0 <= j < k ==> rs[j].emoji != emoji
    ensures member !in rs[k].users ==>
      Toggled(rs, emoji, member) == rs[k := Reaction(emoji, rs[k].users + [member])]
    ensures member in rs[k].users && rs[k].users != [member] ==>
      Toggled(rs, emoji, member) == rs[k := Reaction(emoji, RemoveFirst(rs[k].users, member))]
    ensures rs[k].users == [member] ==>
      Toggled(rs, emoji, member) == rs[..k] + rs[k + 1..]
  {
    assert FindIndex(rs, emoji) == k;
    var users := rs[k].users;
    if member in users {
      var u := IndexOf(users, member);
      if |RemoveAt(users, u)| == 0 {
        assert users == [member];
      } else {
        assert users != [member];
      }
    }
  }

  // ---------------------------------------------------------------------------
  // Effect on the pills

  /**
   * The order of the pills: a new emoji goes last; removing an emoji's last
   * reactor removes its pill and keeps the others in order; otherwise the pills
   * and their order are unchanged.
   */
  lemma ToggleEmojis(rs: seq<Reaction>, emoji: string, member: MemberId)
    ensures Emojis(Toggled(rs, emoji, member)) ==
      if emoji !in Emojis(rs) then Emojis(rs) + [emoji]
      else if Users(rs, emoji) == [member] then RemoveFirst(Emojis(rs), emoji)
      else Emojis(rs)
  {
    var i := FindIndex(rs, emoji);
    FindIndexEmojis(rs, emoji);
    if i == -1 {
      EmojisAppend(rs, Reaction(emoji, [member]));
    } else {
      var users := rs[i].users;
      var u := IndexOf(users, member);
      if u == -1 {
        assert users != [member];
        EmojisUpdate(rs, i, users + [member]);
      } else if |RemoveAt(users, u)| == 0 {
        assert users == [member];
        EmojisRemoveAt(rs, i);
      } else {
        assert users != [member];
        EmojisUpdate(rs, i, RemoveAt(users, u));
      }
    }
  }

  /** No entry is ever left without reactors. */
  lemma ToggleNonEmptyEntries(rs: seq<Reaction>, emoji: string, member: MemberId)
    requires NonEmptyEntries(rs)
    ensures NonEmptyEntries(Toggled(rs, emoji, member))
  {
    var r := Toggled(rs, emoji, member);
    var i := FindIndex(rs, emoji);
    if i != -1 {
      var users := rs[i].users;
      var u := IndexOf(users, member);
      if u != -1 && |RemoveAt(users, u)| == 0 {
        forall k | 0 <= k < |r| ensures |r[k].users| > 0 {
          assert r[k] == rs[if k < i then k else k + 1];
        }
      }
    }
  }

  /** No emoji ever gets a second entry. */
  lemma ToggleUniqueEmojis(rs: seq<Reaction>, emoji: string, member: MemberId)
    requires UniqueEmojis(rs)
    ensures UniqueEmojis(Toggled(rs, emoji, member))
  {
    ToggleEmojis(rs, emoji, member);
    if emoji !in Emojis(rs) {
      AppendNoDuplicates(Emojis(rs), emoji);
    } else if Users(rs, emoji) == [member] {
      RemoveAtNoDuplicates(Emojis(rs), IndexOf(Emojis(rs), emoji));
    }
  }

  /** No member ever appears twice among one emoji's reactors. */
  lemma ToggleUniqueUsers(rs: seq<Reaction>, emoji: string, member: MemberId)
    requires UniqueUsers(rs)
    ensures UniqueUsers(Toggled(rs, emoji, member))
  {
    var r := Toggled(rs, emoji, member);
    var i := FindIndex(rs, emoji);
    if i != -1 {
      var users := rs[i].users;
      var u := IndexOf(users, member);
      if u == -1 {
        AppendNoDuplicates(users, member);
      } else if |RemoveAt(users, u)| == 0 {
        forall k | 0 <= k < |r| ensures NoDuplicates(r[k].users) {
          assert r[k] == rs[if k < i then k else k + 1];
        }
      } else {
        RemoveAtNoDuplicates(users, u);
      }
    }
  }

  /** The toggle keeps the invariant: non-empty users, one entry per emoji, one occurrence per member. */
  lemma ToggleWellFormed(rs: seq<Reaction>, emoji: string, member: MemberId)
    requires WellFormed(rs)
    ensures WellFormed(Toggled(rs, emoji, member))
  {
    ToggleNonEmptyEntries(rs, emoji, member);
    ToggleUniqueEmojis(rs, emoji, member);
    ToggleUniqueUsers(rs, emoji, member);
  }

  /**
   * The reactors of the toggled emoji gain the member at the end, or lose its
   * first occurrence; the reactors of every other emoji are unchanged.
   */
  lemma ToggleUsers(rs: seq<Reaction>, emoji: string, member: MemberId)
    requires UniqueEmojis(rs)
    ensures Users(Toggled(rs, emoji, member), emoji) ==
      if member in Users(rs, emoji) then RemoveFirst(Users(rs, emoji), member)
      else Users(rs, emoji) + [member]
    ensures forall other :: other != emoji ==>
      Users(Toggled(rs, emoji, member), other) == Users(rs, other)
  {
    var r := Toggled(rs, emoji, member);
    var i := FindIndex(rs, emoji);
    if i == -1 {
      var entry := Reaction(emoji, [member]);
      UsersAppend(rs, entry, emoji);
      forall other | other != emoji ensures Users(r, other) == Users(rs, other) {
        UsersAppend(rs, entry, other);
      }
    } else {
      var users := rs[i].users;
      var u := IndexOf(users, member);
      var users' := if u == -1 then users + [member] else RemoveAt(users, u);
      if |users'| == 0 {
        UsersRemoveAtGone(rs, i);
        forall other | other != emoji ensures Users(r, other) == Users(rs, other) {
          UsersRemoveAt(rs, i, other);
        }
      } else {
        UsersUpdate(rs, i, users', emoji);
        forall other | other != emoji ensures Users(r, other) == Users(rs, other) {
          UsersUpdate(rs, i, users', other);
        }
      }
    }
  }

  /**
   * The count on the toggled emoji's pill goes down by one when the member had
   * reacted and up by one otherwise; every other count is unchanged; the number
   * of pills changes by at most one.
   */
  lemma ToggleCounts(rs: seq<Reaction>, emoji: string, member: MemberId)
    requires UniqueEmojis(rs)
    ensures Count(Toggled(rs, emoji, member), emoji) ==
      if Reacted(rs, emoji, member) then Count(rs, emoji) - 1 else Count(rs, emoji) + 1
    ensures forall other :: other != emoji ==> Count(Toggled(rs, emoji, member), other) == Count(rs, other)
    ensures |rs| - 1 <= |Toggled(rs, emoji, member)| <= |rs| + 1
  {
    ToggleUsers(rs, emoji, member);
    ToggleEmojis(rs, emoji, member);
  }

  /**
   * In a well-formed list the toggle flips whether the member has reacted with
   * the emoji, and leaves every other (emoji, member) pair as it was.
   */
  lemma ToggleFlipsReacted(rs: seq<Reaction>, emoji: string, member: MemberId)
    requires WellFormed(rs)
    ensures Reacted(Toggled(rs, emoji, member), emoji, member) == !Reacted(rs, emoji, member)
    ensures forall other, who :: (other != emoji || who != member) ==>
      Reacted(Toggled(rs, emoji, member), other, who) == Reacted(rs, other, who)
  {
    var r := Toggled(rs, emoji, member);
    ToggleUsers(rs, emoji, member);
    var users := Users(rs, emoji);
    if member in users {
      RemoveAtNotIn(users, IndexOf(users, member));
    }
    forall other, who | other != emoji || who != member
      ensures Reacted(r, other, who) == Reacted(rs, other, who)
    {
      if other == emoji {
        RemoveFirstOthers(users, member, who);
        assert who in users + [member] <==> who in users;
      }
    }
  }

  // ---------------------------------------------------------------------------
  // Two toggles in a row

  /** Reacting with a new emoji and withdrawing removes the pill that was added. */
  lemma ToggleTwiceRestoresNew(rs: seq<Reaction>, emoji: string, member: MemberId)
    requires FindIndex(rs, emoji) == -1
    ensures Toggled(Toggled(rs, emoji, member), emoji, member) == rs
  {
    ToggleAppendsEntry(rs, emoji, member);
    var r := rs + [Reaction(emoji, [member])];
    assert forall j :: 0 <= j < |rs| ==> r[j] == rs[j];
    ToggleExistingEntry(r, emoji, member, |rs|);
    assert r[..|rs|] + r[|rs| + 1..] == rs;
  }

  /** Joining an existing pill and withdrawing gives that pill back its old reactors. */
  lemma ToggleTwiceRestoresExisting(rs: seq<Reaction>, emoji: string, member: MemberId, i: nat)
    requires i < |rs| && FindIndex(rs, emoji) == i
    requires |rs[i].users| > 0 && member !in rs[i].users
    ensures Toggled(Toggled(rs, emoji, member), emoji, member) == rs
  {
    var users := rs[i].users;
    ToggleExistingEntry(rs, emoji, member, i);
    var r := rs[i := Reaction(emoji, users + [member])];
    ToggleExistingEntry(r, emoji, member, i);
    assert RemoveFirst(users + [member], member) == users by {
      IndexOfAppend(users, member, member);
      assert RemoveAt(users + [member], |users|) == users;
    }
    assert r[i := Reaction(emoji, users)] == rs;
  }

  /**
   * From a list whose entries all have reactors, where the member has not
   * reacted with `emoji`, toggling it twice gives back exactly the same list.
   */
  lemma ToggleTwiceRestores(rs: seq<Reaction>, emoji: string, member: MemberId)
    requires NonEmptyEntries(rs)
    requires !Reacted(rs, emoji, member)
    ensures Toggled(Toggled(rs, emoji, member), emoji, member) == rs
  {
    var i := FindIndex(rs, emoji);
    if i == -1 {
      ToggleTwiceRestoresNew(rs, emoji, member);
    } else {
      ToggleTwiceRestoresExisting(rs, emoji, member, i);
    }
  }

  /** In a list where no member reacts twice with one emoji, the reactors of any emoji are distinct. */
  lemma UsersNoDuplicates(rs: seq<Reaction>, emoji: string)
    requires UniqueUsers(rs)
    ensures NoDuplicates(Users(rs, emoji))
  {
    var i := FindIndex(rs, emoji);
    if i != -1 {
      assert NoDuplicates(rs[i].users);
    }
  }

  /** Withdrawing and re-reacting only moves the member to the end of the reactors. */
  lemma ToggleTwiceReactedUsers(rs: seq<Reaction>, emoji: string, member: MemberId)
    requires WellFormed(rs) && Reacted(rs, emoji, member)
    ensures Users(Toggled(Toggled(rs, emoji, member), emoji, member), emoji) ==
      RemoveFirst(Users(rs, emoji), member) + [member]
  {
    var r := Toggled(rs, emoji, member);
    var users := Users(rs, emoji);
    var left := RemoveFirst(users, member);
    ToggleUsers(rs, emoji, member);
    assert Users(r, emoji) == left;
    UsersNoDuplicates(rs, emoji);
    RemoveAtNotIn(users, IndexOf(users, member));
    assert member !in left;
    ToggleUniqueEmojis(rs, emoji, member);
    ToggleUsers(r, emoji, member);
  }

  /** Two toggles leave the toggled emoji's reactors the same as a multiset. */
  lemma ToggleTwiceSameUsers(rs: seq<Reaction>, emoji: string, member: MemberId)
    requires WellFormed(rs)
    ensures multiset(Users(Toggled(Toggled(rs, emoji, member), emoji, member), emoji)) ==
      multiset(Users(rs, emoji))
  {
    var users := Users(rs, emoji);
    if member in users {
      ToggleTwiceReactedUsers(rs, emoji, member);
      RemoveFirstMultiset(users, member);
    } else {
      ToggleTwiceRestores(rs, emoji, member);
    }
  }

  /**
   * From any well-formed list, toggling twice leaves every emoji with the same
   * reactors, as a multiset; only their order may change.
   */
  lemma ToggleTwiceKeepsReactors(rs: seq<Reaction>, emoji: string, member: MemberId)
    requires WellFormed(rs)
    ensures forall other :: multiset(Users(Toggled(Toggled(rs, emoji, member), emoji, member), other)) ==
      multiset(Users(rs, other))
  {
    var r := Toggled(rs, emoji, member);
    ToggleWellFormed(rs, emoji, member);
    ToggleUsers(rs, emoji, member);
    ToggleUsers(r, emoji, member);
    ToggleTwiceSameUsers(rs, emoji, member);
  }

  /** A sole reactor who toggles twice sends the pill to the end of the list. */
  lemma ToggleTwiceSoleReactor(rs: seq<Reaction>, emoji: string, member: MemberId)
    requires WellFormed(rs)
    requires Users(rs, emoji) == [member]
    ensures Emojis(Toggled(Toggled(rs, emoji, member), emoji, member)) == RemoveFirst(Emojis(rs), emoji) + [emoji]
  {
    var r := Toggled(rs, emoji, member);
    HasPill(rs, emoji);
    ToggleEmojis(rs, emoji, member);
    assert Emojis(r) == RemoveFirst(Emojis(rs), emoji);
    ToggleWellFormed(rs, emoji, member);
    ToggleUsers(rs, emoji, member);
    assert Users(r, emoji) == [];
    HasPill(r, emoji);
    ToggleEmojis(r, emoji, member);
  }

  /** A reactor who shares the pill with others and toggles twice leaves the pills where they were. */
  lemma ToggleTwiceSharedPill(rs: seq<Reaction>, emoji: string, member: MemberId)
    requires WellFormed(rs)
    requires Reacted(rs, emoji, member) && Users(rs, emoji) != [member]
    ensures Emojis(Toggled(Toggled(rs, emoji, member), emoji, member)) == Emojis(rs)
  {
    var r := Toggled(rs, emoji, member);
    var users := Users(rs, emoji);
    HasPill(rs, emoji);
    ToggleEmojis(rs, emoji, member);
    assert Emojis(r) == Emojis(rs);
    ToggleWellFormed(rs, emoji, member);
    ToggleUsers(rs, emoji, member);
    var left := RemoveFirst(users, member);
    assert Users(r, emoji) == left;
    UsersNoDuplicates(rs, emoji);
    RemoveAtNotIn(users, IndexOf(users, member));
    assert left != [];
    assert left != [member];
    HasPill(r, emoji);
    ToggleEmojis(r, emoji, member);
  }

  /**
   * From any well-formed list, toggling twice gives back the same pills, as a
   * multiset; only their order may change.
   */
  lemma ToggleTwiceKeepsPills(rs: seq<Reaction>, emoji: string, member: MemberId)
    requires WellFormed(rs)
    ensures multiset(Emojis(Toggled(Toggled(rs, emoji, member), emoji, member))) == multiset(Emojis(rs))
  {
    var users := Users(rs, emoji);
    if member !in users {
      ToggleTwiceRestores(rs, emoji, member);
    } else if users == [member] {
      ToggleTwiceSoleReactor(rs, emoji, member);
      HasPill(rs, emoji);
      RemoveFirstMultiset(Emojis(rs), emoji);
    } else {
      ToggleTwiceSharedPill(rs, emoji, member);
    }
  }

  /** The reverse is not exact: un-reacting and re-reacting moves the member to the end of the reactors. */
  lemma ToggleTwiceMovesMember(emoji: string, ann: MemberId, bob: MemberId)
    requires ann != bob
    ensures Toggled(Toggled([Reaction(emoji, [ann, bob])], emoji, ann), emoji, ann) ==
      [Reaction(emoji, [bob, ann])]
  {
    var rs := [Reaction(emoji, [ann, bob])];
    assert Toggled(rs, emoji, ann) == [Reaction(emoji, [bob])] by {
      ToggleExistingEntry(rs, emoji, ann, 0);
      assert IndexOf([ann, bob], ann) == 0;
      assert RemoveAt([ann, bob], 0) == [bob];
    }
    assert Toggled([Reaction(emoji, [bob])], emoji, ann) == [Reaction(emoji, [bob, ann])] by {
      ToggleExistingEntry([Reaction(emoji, [bob])], emoji, ann, 0);
      assert [bob] + [ann] == [bob, ann];
    }
  }

  /** Nor is it for a sole reactor: the pill is dropped and comes back at the end of the list. */
  lemma ToggleTwiceMovesEntry(first: string, second: string, ann: MemberId, bob: MemberId)
    requires first != second
    ensures Toggled(Toggled([Reaction(first, [ann]), Reaction(second, [bob])], first, ann), first, ann) ==
      [Reaction(second, [bob]), Reaction(first, [ann])]
  {
    var rs := [Reaction(first, [ann]), Reaction(second, [bob])];
    assert Toggled(rs, first, ann) == [Reaction(second, [bob])] by {
      ToggleExistingEntry(rs, first, ann, 0);
      assert rs[1..] == [Reaction(second, [bob])];
    }
    ToggleAppendsEntry([Reaction(second, [bob])], first, ann);
  }

  // ---------------------------------------------------------------------------
  // Clicking a pill

  /**
   * Clicking the pill at position `k` toggles that pill's own emoji, so it never
   * adds a pill: the list does not grow and every emoji in it was there before.
   */
  lemma ClickNeverAddsEntry(rs: seq<Reaction>, k: nat, member: MemberId)
    requires k < |rs|
    ensures |Toggled(rs, rs[k].emoji, member)| <= |rs|
    ensures forall e :: e in Emojis(Toggled(rs, rs[k].emoji, member)) ==> e in Emojis(rs)
  {
    var emoji := rs[k].emoji;
    assert Emojis(rs)[k] == emoji;
    ToggleEmojis(rs, emoji, member);
    if Users(rs, emoji) == [member] {
      var r := RemoveFirst(Emojis(rs), emoji);
      RemoveFirstMultiset(Emojis(rs), emoji);
      forall e | e in r ensures e in Emojis(rs) {
        assert multiset(r)[e] > 0;
      }
    }
  }

  // ---------------------------------------------------------------------------
  // A session of toggles, starting from the empty list of a freshly rendered message

  /**
   * Two members react with the same emoji and then withdraw in the order they
   * came; the pill disappears with its last reactor.
   */
  lemma ToggleScenarioOneEmoji(emoji: string, u1: MemberId, u2: MemberId)
    requires u1 != u2
    ensures Toggled([], emoji, u1) == [Reaction(emoji, [u1])]
    ensures Toggled([Reaction(emoji, [u1])], emoji, u2) == [Reaction(emoji, [u1, u2])]
    ensures Toggled([Reaction(emoji, [u1, u2])], emoji, u1) == [Reaction(emoji, [u2])]
    ensures Toggled([Reaction(emoji, [u2])], emoji, u2) == []
  {
    assert Toggled([Reaction(emoji, [u1])], emoji, u2) == [Reaction(emoji, [u1, u2])] by {
      ToggleExistingEntry([Reaction(emoji, [u1])], emoji, u2, 0);
      assert [u1] + [u2] == [u1, u2];
    }
    assert Toggled([Reaction(emoji, [u1, u2])], emoji, u1) == [Reaction(emoji, [u2])] by {
      ToggleExistingEntry([Reaction(emoji, [u1, u2])], emoji, u1, 0);
      assert IndexOf([u1, u2], u1) == 0;
      assert RemoveAt([u1, u2], 0) == [u2];
    }
    assert Toggled([Reaction(emoji, [u2])], emoji, u2) == [] by {
      ToggleExistingEntry([Reaction(emoji, [u2])], emoji, u2, 0);
    }
  }

  /** A second emoji's pill is placed after the first. */
  lemma ToggleScenarioTwoEmojis(first: string, second: string, u1: MemberId)
    requires first != second
    ensures Toggled([Reaction(first, [u1])], second, u1) == [Reaction(first, [u1]), Reaction(second, [u1])]
  {
    ToggleAppendsEntry([Reaction(first, [u1])], second, u1);
  }
}
