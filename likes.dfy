/** The operations the blog handlers perform on a post's `likes` list:
    `some` (is this user in it), `findIndex` (where), `splice` (remove one
    entry) and `push` (append), and the toggle they make up together. */
module Likes {
  import opened Blog

  /** No user id occurs twice. The schema does not demand this; the toggle
      keeps it. */
  predicate NoDuplicates(s: seq<UserId>)
  {
    forall i, j :: 0 <= i < j < |s| ==> s[i] != s[j]
  }

  /** `likes.some(id => id === u)`, scanning from the front. */
  function Any(likes: seq<UserId>, u: UserId): (b: bool)
    ensures b <==> u in likes
  {
    if likes == [] then false
    else likes[0] == u || Any(likes[1..], u)
  }

  /** `likes.findIndex(id => id === u)`: the first position holding `u`, or
      -1 when there is none. */
  method FindIndex(likes: seq<UserId>, u: UserId) returns (index: int)
    ensures -1 <= index < |likes|
    ensures index == -1 <==> u !in likes
    ensures 0 <= index ==> likes[index] == u && u !in likes[..index]
  {
    index := 0;
    while index < |likes|
      invariant 0 <= index <= |likes|
      invariant u !in likes[..index]
    {
      if likes[index] == u {
        return;
      }
      index := index + 1;
    }
    assert likes[..index] == likes;
    index := -1;
  }

  /** The list without the first occurrence of `u` (unchanged when `u` does
      not occur). */
  function RemoveFirst(likes: seq<UserId>, u: UserId): (r: seq<UserId>)
    ensures u !in likes ==> r == likes
    ensures u in likes ==> |r| == |likes| - 1
    ensures u in likes ==> multiset(r) == multiset(likes) - multiset{u}
    ensures forall x :: x in r ==> x in likes
  {
    if likes == [] then []
    else
      assert likes == [likes[0]] + likes[1..];
      if likes[0] == u then likes[1..]
      else [likes[0]] + RemoveFirst(likes[1..], u)
  }

  /** The like toggle as a rule on lists: a user already in the list is
      taken out once, any other user is added at the end. */
  function Toggled(likes: seq<UserId>, u: UserId): (r: seq<UserId>)
    ensures multiset(r) == if u in likes then multiset(likes) - multiset{u} else multiset(likes) + multiset{u}
  {
    if u in likes then RemoveFirst(likes, u) else likes + [u]
  }

  /** `splice(index, 1)` at the index `findIndex` reports removes the first
      occurrence of `u`. */
  lemma {:induction false} SpliceRemovesFirst(likes: seq<UserId>, u: UserId, index: nat)
    requires index < |likes| && likes[index] == u && u !in likes[..index]
    ensures likes[..index] + likes[index + 1..] == RemoveFirst(likes, u)
  {
    if index > 0 {
      var tail := likes[1..];
      assert likes[0] != u by { assert likes[0] == likes[..index][0]; }
      assert tail[..index - 1] == likes[1..index];
      assert tail[index..] == likes[index + 1..];
      assert likes[..index] == [likes[0]] + tail[..index - 1];
      assert u !in tail[..index - 1];
      SpliceRemovesFirst(tail, u, index - 1);
      assert RemoveFirst(likes, u) == [likes[0]] + RemoveFirst(tail, u);
    }
  }

  /** Removing the first occurrence of `u` from a list without duplicates
      removes every occurrence of it. */
  lemma {:induction false} RemoveFirstNoDuplicates(likes: seq<UserId>, u: UserId)
    requires NoDuplicates(likes)
    ensures u !in RemoveFirst(likes, u)
    ensures NoDuplicates(RemoveFirst(likes, u))
  {
    if likes != [] {
      var tail := likes[1..];
      assert NoDuplicates(tail) by {
        forall i, j | 0 <= i < j < |tail| ensures tail[i] != tail[j] {
          assert tail[i] == likes[i + 1] && tail[j] == likes[j + 1];
        }
      }
      assert likes[0] !in tail by {
        forall i | 0 <= i < |tail| ensures tail[i] != likes[0] {
          assert tail[i] == likes[i + 1];
        }
      }
      if likes[0] != u {
        RemoveFirstNoDuplicates(tail, u);
        var r := RemoveFirst(tail, u);
        assert RemoveFirst(likes, u) == [likes[0]] + r;
        assert likes[0] !in r;
      }
    }
  }

  /** On a list without duplicates, toggling flips whether `u` is in it. */
  lemma ToggleFlipsMembership(likes: seq<UserId>, u: UserId)
    requires NoDuplicates(likes)
    ensures u in Toggled(likes, u) <==> u !in likes
  {
    RemoveFirstNoDuplicates(likes, u);
  }

  /** Without the duplicate-free invariant the flip fails: a list holding the
      caller twice still holds it after an unlike. */
  lemma DuplicateSurvivesToggle(u: UserId)
    ensures u in [u, u] && u in Toggled([u, u], u)
  {
    assert RemoveFirst([u, u], u) == [u];
  }

  /** A like adds one entry and an unlike removes one. */
  lemma ToggleCount(likes: seq<UserId>, u: UserId)
    ensures |Toggled(likes, u)| == if u in likes then |likes| - 1 else |likes| + 1
  {
  }

  /** No other user's like is added or removed. */
  lemma ToggleKeepsOthers(likes: seq<UserId>, u: UserId, v: UserId)
    requires v != u
    ensures v in Toggled(likes, u) <==> v in likes
  {
    if u in likes {
      var r := RemoveFirst(likes, u);
      assert multiset(r)[v] == multiset(likes)[v];
    }
  }

  /** A list without duplicates stays without duplicates. */
  lemma ToggleKeepsNoDuplicates(likes: seq<UserId>, u: UserId)
    requires NoDuplicates(likes)
    ensures NoDuplicates(Toggled(likes, u))
  {
    if u in likes {
      RemoveFirstNoDuplicates(likes, u);
    }
  }

  /** Two toggles by the same user restore the membership, the count and
      the multiset of likes; when the first toggle was a like, they restore
      the list itself. */
  lemma ToggleTwice(likes: seq<UserId>, u: UserId)
    requires NoDuplicates(likes)
    ensures var twice := Toggled(Toggled(likes, u), u);
      && (u in twice <==> u in likes)
      && |twice| == |likes|
      && multiset(twice) == multiset(likes)
      && (u !in likes ==> twice == likes)
  {
    var once := Toggled(likes, u);
    ToggleFlipsMembership(likes, u);
    ToggleKeepsNoDuplicates(likes, u);
    ToggleFlipsMembership(once, u);
    if u !in likes {
      assert RemoveFirst(once, u) == likes by {
        SpliceRemovesFirst(once, u, |likes|);
        assert once[..|likes|] == likes;
      }
    }
  }
}
