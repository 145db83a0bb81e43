/**
 * The emoji reactions of one chat message: an ordered list of entries, each an
 * emoji and the ordered list of the members who reacted with it, and the toggle
 * that a click on the emoji picker or on a reaction pill applies to it.
 *
 * `Toggled` is the toggle as a pure reducer, old list to new list. The class in
 * module ChatItem performs the same steps on its own state and is proved equal to it.
 */
module Reactions {
  import opened Primitives

  /** A member identifier (`currentMember.id`). */
  type MemberId = string

  /** One reaction pill: the emoji and the members who reacted with it, in reaction order. */
  datatype Reaction = Reaction(emoji: string, users: seq<MemberId>)

  /** The emojis of the list, in list order. */
  function Emojis(rs: seq<Reaction>): seq<string> {
    seq(|rs|, k requires 0 <= k < |rs| => rs[k].emoji)
  }

  /**
   * `findIndex(r => r.emoji === emoji)`: the first entry for `emoji`, or -1.
   * It walks the entries themselves, as `findIndex` does; lemma
   * `FindIndexEmojis` shows it is `IndexOf(Emojis(rs), emoji)`, the form the
   * proofs about edits to the emoji list use.
   */
  function FindIndex(rs: seq<Reaction>, emoji: string): (i: int)
    ensures -1 <= i < |rs|
    ensures i == -1 <==> forall k :: 0 <= k < |rs| ==> rs[k].emoji != emoji
    ensures i != -1 ==> rs[i].emoji == emoji && forall k :: 0 <= k < i ==> rs[k].emoji != emoji
    decreases |rs|
  {
    if |rs| == 0 then -1
    else if rs[0].emoji == emoji then 0
    else
      var j := FindIndex(rs[1..], emoji);
      if j == -1 then -1 else j + 1
  }

  /**
   * The reaction list after the member `member` toggles `emoji`:
   * a new entry at the end when no entry has that emoji; otherwise the member is
   * appended to the first such entry's users when absent, or its first occurrence
   * removed when present, and an entry left without users is dropped.
   */
  function Toggled(rs: seq<Reaction>, emoji: string, member: MemberId): (r: seq<Reaction>)
    ensures |rs| - 1 <= |r| <= |rs| + 1
  {
    var i := FindIndex(rs, emoji);
    if i == -1 then
      rs + [Reaction(emoji, [member])]
    else
      var users := rs[i].users;
      var u := IndexOf(users, member);
      if u == -1 then
        rs[i := rs[i].(users := users + [member])]
      else
        var left := RemoveAt(users, u);
        if |left| == 0 then RemoveAt(rs, i) else rs[i := rs[i].(users := left)]
  }

  /** The members who reacted with `emoji` (those of its first entry), in order; empty when none did. */
  function Users(rs: seq<Reaction>, emoji: string): seq<MemberId> {
    var i := FindIndex(rs, emoji);
    if i == -1 then [] else rs[i].users
  }

  /** The count shown on the pill of `emoji` (`users.length`); zero when there is no pill. */
  function Count(rs: seq<Reaction>, emoji: string): (c: nat)
    ensures c > 0 ==> FindIndex(rs, emoji) != -1
  {
    |Users(rs, emoji)|
  }

  /** Whether `member` has reacted with `emoji`. */
  predicate Reacted(rs: seq<Reaction>, emoji: string, member: MemberId) {
    member in Users(rs, emoji)
  }

  /** No entry has an empty users list. */
  ghost predicate NonEmptyEntries(rs: seq<Reaction>) {
    forall k :: 0 <= k < |rs| ==> |rs[k].users| > 0
  }

  /** No two entries share an emoji. */
  ghost predicate UniqueEmojis(rs: seq<Reaction>) {
    NoDuplicates(Emojis(rs))
  }

  /** No member appears twice in one entry's users. */
  ghost predicate UniqueUsers(rs: seq<Reaction>) {
    forall k :: 0 <= k < |rs| ==> NoDuplicates(rs[k].users)
  }

  /** The invariant every reachable reaction list keeps. */
  ghost predicate WellFormed(rs: seq<Reaction>) {
    NonEmptyEntries(rs) && UniqueEmojis(rs) && UniqueUsers(rs)
  }
}
