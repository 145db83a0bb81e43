/**
 * The state a rendered chat message keeps: its reaction list, which starts
 * empty, and the member looking at it. The emoji picker and every reaction pill
 * call the same toggle on it.
 */
module ChatItem {
  import opened Primitives
  import opened Reactions
  import opened ReactionProperties

  /** What one pill shows: the emoji and how many members reacted with it. */
  datatype Pill = Pill(emoji: string, count: nat)

  /** The pills of a reaction list, one per entry, in list order. */
  function Pills(rs: seq<Reaction>): (ps: seq<Pill>)
    ensures |ps| == |Emojis(rs)|
    ensures forall k :: 0 <= k < |ps| ==> ps[k].emoji == Emojis(rs)[k]
  {
    seq(|rs|, k requires 0 <= k < |rs| => Pill(rs[k].emoji, |rs[k].users|))
  }

  /**
   * In a well-formed list the pills are the emojis in order, each showing the
   * number of members who reacted with it, and no pill shows zero.
   */
  lemma PillsShowCounts(rs: seq<Reaction>)
    requires WellFormed(rs)
    ensures |Pills(rs)| == |Emojis(rs)|
    ensures forall k :: 0 <= k < |rs| ==>
      Pills(rs)[k].emoji == Emojis(rs)[k] && Pills(rs)[k].count == Count(rs, Emojis(rs)[k]) > 0
  {
    forall k | 0 <= k < |rs|
      ensures Pills(rs)[k].count == Count(rs, Emojis(rs)[k]) > 0
    {
      UsersAt(rs, rs[k].emoji, k);
    }
  }

  class ReactionState {
    /** The acting member, `currentMember.id`. */
    const member: MemberId
    /** The reaction list, in the order the emojis were first used. */
    var reactions: seq<Reaction>

    ghost predicate Valid()
      reads this
    {
      WellFormed(reactions)
    }

    /** A freshly rendered message has no reactions. */
    constructor (member: MemberId)
      ensures Valid()
      ensures this.member == member && reactions == []
    {
      this.member := member;
      reactions := [];
    }

    /**
     * The member toggles `emoji`: looks up the entry for it; if there is one,
     * removes the member from its users when present (dropping the entry when
     * nobody is left) and appends the member otherwise; if there is none,
     * appends a new entry for the member.
     */
    method Toggle(emoji: string)
      requires Valid()
      modifies this
      ensures Valid()
      ensures reactions == Toggled(old(reactions), emoji, member)
      ensures Reacted(reactions, emoji, member) == !old(Reacted(reactions, emoji, member))
      ensures Count(reactions, emoji) ==
        if old(Reacted(reactions, emoji, member)) then old(Count(reactions, emoji)) - 1
        else old(Count(reactions, emoji)) + 1
      ensures forall other :: other != emoji ==> Users(reactions, other) == old(Users(reactions, other))
    {
      ghost var before := reactions;
      var existing := FindIndex(reactions, emoji);
      if existing != -1 {
        var updated := reactions;
        var users := updated[existing].users;
        var userIndex := IndexOf(users, member);
        if userIndex != -1 {
          updated := updated[existing := updated[existing].(users := RemoveAt(users, userIndex))];
          if |updated[existing].users| == 0 {
            updated := RemoveAt(updated, existing);
          }
        } else {
          updated := updated[existing := updated[existing].(users := users + [member])];
        }
        reactions := updated;
      } else {
        reactions := reactions + [Reaction(emoji, [member])];
      }
      ToggleWellFormed(before, emoji, member);
      ToggleFlipsReacted(before, emoji, member);
      ToggleCounts(before, emoji, member);
      ToggleUsers(before, emoji, member);
    }

    /**
     * A click on the pill at `index` toggles that pill's own emoji: the list
     * never grows and gains no emoji it did not have.
     */
    method ClickReaction(index: nat)
      requires Valid()
      requires index < |reactions|
      modifies this
      ensures Valid()
      ensures reactions == Toggled(old(reactions), old(reactions[index].emoji), member)
      ensures |reactions| <= old(|reactions|)
      ensures forall e :: e in Emojis(reactions) ==> e in old(Emojis(reactions))
    {
      ClickNeverAddsEntry(reactions, index, member);
      Toggle(reactions[index].emoji);
    }
  }
}
