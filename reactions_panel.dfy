/**
 * The reaction panel under the player: the fixed list of reaction buttons,
 * the per-kind and total counts, and the summary line.
 */
module ReactionsPanel {
  import opened Common
  import Utils
  import opened ReactionTable
  import ReactionHook

  /** The ids of the six buttons, in display order. */
  const ReactionIds: seq<string> := ["like", "love", "laugh", "wow", "sad", "angry"]

  /** Lower-case words pass the reaction-kind check. */
  lemma LowercaseIsKind(k: string)
    requires k != "" && forall i :: 0 <= i < |k| ==> 'a' <= k[i] <= 'z'
    ensures ReactionHook.IsValidReactionType(k)
  {
    ReactionHook.ValidReactionTypeIff(k);
  }

  /** The ids are distinct: their first two letters already differ. */
  lemma ReactionIdsDistinct()
    ensures forall i, j :: 0 <= i < j < |ReactionIds| ==> ReactionIds[i] != ReactionIds[j]
  {
    var ids := ReactionIds;
    var tags := [['l', 'i'], ['l', 'o'], ['l', 'a'], ['w', 'o'], ['s', 'a'], ['a', 'n']];
    forall i | 0 <= i < |ids| ensures |ids[i]| >= 2 && ids[i][..2] == tags[i] {
    }
    forall i, j | 0 <= i < j < |ids| ensures ids[i] != ids[j] {
      assert tags[i] != tags[j];
    }
  }

  /** Each id is a kind the controller accepts. */
  lemma ReactionIdsValid()
    ensures forall i :: 0 <= i < |ReactionIds| ==> ReactionHook.IsValidReactionType(ReactionIds[i])
  {
    forall i | 0 <= i < |ReactionIds| ensures ReactionHook.IsValidReactionType(ReactionIds[i]) {
      LowercaseIsKind(ReactionIds[i]);
    }
  }

  /** A button is highlighted when it is the visitor's reaction. */
  predicate Highlighted(userReaction: Option<string>, id: string)
  {
    userReaction == Some(id)
  }

  /** At most one button is highlighted. */
  lemma AtMostOneHighlighted(userReaction: Option<string>, i: int, j: int)
    requires 0 <= i < |ReactionIds| && 0 <= j < |ReactionIds|
    requires Highlighted(userReaction, ReactionIds[i]) && Highlighted(userReaction, ReactionIds[j])
    ensures i == j
  {
    ReactionIdsDistinct();
  }

  /** `getReactionCount`: the count of the first entry of that kind, 0 when there is none. */
  function GetReactionCount(counts: seq<ReactionCount>, id: string): (n: int)
    ensures (forall i :: 0 <= i < |counts| ==> counts[i].reactionType != id) ==> n == 0
    ensures forall i :: (0 <= i < |counts| && counts[i].reactionType == id
                         && forall j :: 0 <= j < i ==> counts[j].reactionType != id) ==> n == counts[i].count
    decreases |counts|
  {
    if counts == [] then 0
    else if counts[0].reactionType == id then counts[0].count
    else
      var rest := counts[1..];
      assert forall i :: 1 <= i < |counts| ==> counts[i] == rest[i - 1];
      GetReactionCount(rest, id)
  }

  /** `getTotalReactions`: the sum of all counts. */
  function GetTotalReactions(counts: seq<ReactionCount>): (total: int)
    ensures counts == [] ==> total == 0
    decreases |counts|
  {
    if counts == [] then 0 else counts[0].count + GetTotalReactions(counts[1..])
  }

  predicate NonNegative(counts: seq<ReactionCount>)
  {
    forall i :: 0 <= i < |counts| ==> counts[i].count >= 0
  }

  /** With non-negative counts no kind has more than the total. */
  lemma {:induction false} CountAtMostTotal(counts: seq<ReactionCount>, id: string)
    requires NonNegative(counts)
    ensures 0 <= GetReactionCount(counts, id) <= GetTotalReactions(counts)
    decreases |counts|
  {
    if counts != [] {
      assert NonNegative(counts[1..]);
      CountAtMostTotal(counts[1..], id);
    }
  }

  lemma {:induction false} TotalAppend(a: seq<ReactionCount>, b: seq<ReactionCount>)
    ensures GetTotalReactions(a + b) == GetTotalReactions(a) + GetTotalReactions(b)
    decreases |a|
  {
    if a == [] {
      assert a + b == b;
    } else {
      assert (a + b)[1..] == a[1..] + b;
      TotalAppend(a[1..], b);
    }
  }

  // ---------------------------------------------------------------------------
  // The panel against the store's grouping

  lemma {:induction false} AddKindTotal(counts: seq<ReactionCount>, k: string)
    ensures GetTotalReactions(AddKind(counts, k)) == GetTotalReactions(counts) + 1
    decreases |counts|
  {
    if counts != [] && counts[0].reactionType != k {
      AddKindTotal(counts[1..], k);
    }
  }

  lemma {:induction false} AddKindCount(counts: seq<ReactionCount>, k: string, id: string)
    ensures GetReactionCount(AddKind(counts, k), id) == GetReactionCount(counts, id) + (if k == id then 1 else 0)
    decreases |counts|
  {
    if counts != [] && counts[0].reactionType != k {
      AddKindCount(counts[1..], k, id);
    }
  }

  /** The number of occurrences of `k`. */
  function Occurrences(kinds: seq<string>, k: string): nat
    decreases |kinds|
  {
    if kinds == [] then 0 else Occurrences(kinds[..|kinds| - 1], k) + (if kinds[|kinds| - 1] == k then 1 else 0)
  }

  lemma {:induction false} GroupTotals(kinds: seq<string>, id: string)
    ensures GetTotalReactions(Group(kinds)) == |kinds|
    ensures GetReactionCount(Group(kinds), id) == Occurrences(kinds, id)
    decreases |kinds|
  {
    if kinds != [] {
      var init := kinds[..|kinds| - 1];
      GroupTotals(init, id);
      AddKindTotal(Group(init), kinds[|kinds| - 1]);
      AddKindCount(Group(init), kinds[|kinds| - 1], id);
    }
  }

  /** The number of stored reactions of one kind on a video. */
  function KindCount(rows: seq<Reaction>, videoId: string, k: string): nat
    decreases |rows|
  {
    if rows == [] then 0
    else (if rows[0].videoId == videoId && rows[0].reactionType == k then 1 else 0) + KindCount(rows[1..], videoId, k)
  }

  /** The number of stored reactions on a video. */
  function VideoRowCount(rows: seq<Reaction>, videoId: string): nat
    decreases |rows|
  {
    if rows == [] then 0 else (if rows[0].videoId == videoId then 1 else 0) + VideoRowCount(rows[1..], videoId)
  }

  lemma {:induction false} OccurrencesAppend(a: seq<string>, b: seq<string>, k: string)
    ensures Occurrences(a + b, k) == Occurrences(a, k) + Occurrences(b, k)
    decreases |b|
  {
    if b == [] {
      assert a + b == a;
    } else {
      assert (a + b)[..|a + b| - 1] == a + b[..|b| - 1];
      OccurrencesAppend(a, b[..|b| - 1], k);
    }
  }

  lemma {:induction false} KindsForCounts(rows: seq<Reaction>, videoId: string, k: string)
    ensures Occurrences(KindsFor(rows, videoId), k) == KindCount(rows, videoId, k)
    ensures |KindsFor(rows, videoId)| == VideoRowCount(rows, videoId)
    decreases |rows|
  {
    if rows != [] {
      KindsForCounts(rows[1..], videoId, k);
      var head := if rows[0].videoId == videoId then [rows[0].reactionType] else [];
      OccurrencesAppend(head, KindsFor(rows[1..], videoId), k);
      if head != [] {
        assert head[..0] == [];
      }
    }
  }

  /**
   * Count conservation and agreement: over the counts the store reports, the
   * panel's total is the number of the video's reactions, and the count it
   * shows for a kind is the number of that kind.
   */
  lemma PanelMatchesStore(rows: seq<Reaction>, videoId: string, k: string)
    ensures GetTotalReactions(CountsOf(rows, videoId)) == VideoRowCount(rows, videoId)
    ensures GetReactionCount(CountsOf(rows, videoId), k) == KindCount(rows, videoId, k)
  {
    GroupTotals(KindsFor(rows, videoId), k);
    KindsForCounts(rows, videoId, k);
  }

  // ---------------------------------------------------------------------------
  // The summary line

  const NoReactionsText: string := "No reactions yet"

  /** The summary: its leading text and, when there is more than one entry, the "and N others" number. */
  datatype Summary = Summary(lead: string, others: Option<int>)

  function SummaryLine(counts: seq<ReactionCount>): (s: Summary)
    ensures counts == [] ==> s.lead == NoReactionsText
    ensures counts != [] ==> s.lead == counts[0].reactionType
    ensures s.others.Some? <==> |counts| > 1
    ensures s.others.Some? ==> s.others.value == GetTotalReactions(counts) - counts[0].count
  {
    var lead := if |counts| > 0 then counts[0].reactionType else NoReactionsText;
    var others := if |counts| > 1 then Some(GetTotalReactions(counts[1..])) else None;
    Summary(lead, others)
  }

  /** The placeholder text is not a kind the controller would accept (it holds spaces). */
  lemma PlaceholderIsNoKind()
    ensures !ReactionHook.IsValidReactionType(NoReactionsText)
  {
    var t := NoReactionsText;
    assert t[2] == ' ';
    SpacedIsNoKind(t);
  }

  lemma SpacedIsNoKind(t: string)
    requires |t| > 2 && t[2] == ' '
    ensures !ReactionHook.IsValidReactionType(t)
  {
    ReactionHook.ValidReactionTypeIff(t);
  }

  /** With well-formed kinds the placeholder appears exactly when there are no counts, and N is never negative. */
  lemma SummaryPlaceholder(counts: seq<ReactionCount>)
    requires counts != [] ==> ReactionHook.IsValidReactionType(counts[0].reactionType)
    requires NonNegative(counts)
    ensures SummaryLine(counts).lead == NoReactionsText <==> counts == []
    ensures SummaryLine(counts).others.Some? ==> SummaryLine(counts).others.value >= 0
  {
    PlaceholderIsNoKind();
    if counts != [] {
      assert NonNegative(counts[1..]);
      CountAtMostTotal(counts[1..], "");
    }
  }

  /** `handleReaction`: the button's id goes to `addReaction` unchanged. */
  method HandleReaction(session: ReactionHook.ReactionSession, reactionId: string, f: ReactionHook.WriteFaults)
    modifies session, session.store
    ensures session.videoId == old(session.videoId) && session.ipAddress == old(session.ipAddress)
    ensures session.reactionCounts == old(session.reactionCounts) && session.loading == old(session.loading)
    ensures session.store.videos
            == if old(session.ipAddress) != "" && old(session.videoId) != ""
               then ReactionHook.EnsuredVideos(old(session.store.videos), old(session.videoId), f.ensureFails)
               else old(session.store.videos)
    ensures session.store.rows
            == if ReactionHook.WriteAllowed(old(session.ipAddress), old(session.videoId), reactionId)
               then WriteProtocol(old(session.store.rows), old(session.videoId), old(session.ipAddress), reactionId, f.deleteFails, f.insertFails)
               else old(session.store.rows)
    ensures (session.hasReacted, session.userReaction)
            == if ReactionHook.WriteAllowed(old(session.ipAddress), old(session.videoId), reactionId) && !f.insertFails
               then (true, Some(reactionId))
               else (old(session.hasReacted), old(session.userReaction))
  {
    session.AddReaction(reactionId, f);
  }
}
