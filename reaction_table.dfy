/**
 * The remote `video_reactions` table as this subsystem sees it, together with
 * the three server functions the reaction hook calls (`ensure_video_exists`,
 * `check_ip_has_reacted`, `get_video_reaction_counts`). The table is a sequence
 * of rows in insertion order; the server functions are stated only as filters
 * and a grouping of these rows, and every call may fail.
 */
module ReactionTable {
  import opened Common

  /** A row of `video_reactions`; the server-assigned `id` and `created_at` are not modelled. */
  datatype Reaction = Reaction(videoId: string, ipAddress: string, reactionType: string)

  /** A row of `get_video_reaction_counts`. */
  datatype ReactionCount = ReactionCount(reactionType: string, count: int)

  /** A row of `check_ip_has_reacted`. */
  datatype StatusRow = StatusRow(hasReacted: bool, reactionType: string)

  predicate HasKey(r: Reaction, videoId: string, ip: string)
  {
    r.videoId == videoId && r.ipAddress == ip
  }

  /** The rows for one (video, identity) pair, in table order. */
  function RowsFor(rows: seq<Reaction>, videoId: string, ip: string): (r: seq<Reaction>)
    ensures forall x :: x in r <==> x in rows && HasKey(x, videoId, ip)
    decreases |rows|
  {
    if rows == [] then []
    else (if HasKey(rows[0], videoId, ip) then [rows[0]] else []) + RowsFor(rows[1..], videoId, ip)
  }

  /** `delete().eq('video_id', v).eq('ip_address', ip)`: every row of the pair goes, the rest keep their order. */
  function WithoutKey(rows: seq<Reaction>, videoId: string, ip: string): (r: seq<Reaction>)
    ensures forall x :: x in r <==> x in rows && !HasKey(x, videoId, ip)
    ensures |r| <= |rows|
    decreases |rows|
  {
    if rows == [] then []
    else (if HasKey(rows[0], videoId, ip) then [] else [rows[0]]) + WithoutKey(rows[1..], videoId, ip)
  }

  lemma {:induction false} RowsForAppend(a: seq<Reaction>, b: seq<Reaction>, videoId: string, ip: string)
    ensures RowsFor(a + b, videoId, ip) == RowsFor(a, videoId, ip) + RowsFor(b, videoId, ip)
    decreases |a|
  {
    if a == [] {
      assert a + b == b;
    } else {
      assert (a + b)[1..] == a[1..] + b;
      RowsForAppend(a[1..], b, videoId, ip);
    }
  }

  /** Deleting one pair leaves the rows of every other pair exactly as they were. */
  lemma {:induction false} RowsForWithoutKey(rows: seq<Reaction>, videoId: string, ip: string, v2: string, ip2: string)
    ensures RowsFor(WithoutKey(rows, videoId, ip), v2, ip2)
            == if videoId == v2 && ip == ip2 then [] else RowsFor(rows, v2, ip2)
    decreases |rows|
  {
    if rows != [] {
      RowsForWithoutKey(rows[1..], videoId, ip, v2, ip2);
      var head := if HasKey(rows[0], videoId, ip) then [] else [rows[0]];
      RowsForAppend(head, WithoutKey(rows[1..], videoId, ip), v2, ip2);
    }
  }

  /**
   * The write of `addReaction`, steps 2 and 3: delete the pair's rows (unless
   * the delete fails), then append the new row (unless the insert fails).
   */
  function WriteProtocol(rows: seq<Reaction>, videoId: string, ip: string, kind: string,
                         deleteFails: bool, insertFails: bool): (r: seq<Reaction>)
    ensures !insertFails ==> r != [] && r[|r| - 1] == Reaction(videoId, ip, kind)
    ensures forall x :: x in r ==> x in rows || x == Reaction(videoId, ip, kind)
    ensures !deleteFails ==> forall x :: x in r && HasKey(x, videoId, ip) ==> x == Reaction(videoId, ip, kind)
    ensures forall x :: x in rows && !HasKey(x, videoId, ip) ==> x in r
  {
    var afterDelete := if deleteFails then rows else WithoutKey(rows, videoId, ip);
    if insertFails then afterDelete else afterDelete + [Reaction(videoId, ip, kind)]
  }

  /** When both steps succeed, exactly one row is left for the pair, and it carries the new kind. */
  lemma WriteLeavesOneRow(rows: seq<Reaction>, videoId: string, ip: string, kind: string)
    ensures RowsFor(WriteProtocol(rows, videoId, ip, kind, false, false), videoId, ip)
            == [Reaction(videoId, ip, kind)]
  {
    RowsForAppend(WithoutKey(rows, videoId, ip), [Reaction(videoId, ip, kind)], videoId, ip);
    RowsForWithoutKey(rows, videoId, ip, videoId, ip);
  }

  /** A successful delete followed by a failed insert leaves the pair with no row at all. */
  lemma WriteInsertFailedLeavesNone(rows: seq<Reaction>, videoId: string, ip: string, kind: string)
    ensures RowsFor(WriteProtocol(rows, videoId, ip, kind, false, true), videoId, ip) == []
  {
    RowsForWithoutKey(rows, videoId, ip, videoId, ip);
  }

  /** Whatever the outcome of either step, the rows of every other pair are untouched. */
  lemma WriteKeepsOtherKeys(rows: seq<Reaction>, videoId: string, ip: string, kind: string,
                            deleteFails: bool, insertFails: bool, v2: string, ip2: string)
    requires videoId != v2 || ip != ip2
    ensures RowsFor(WriteProtocol(rows, videoId, ip, kind, deleteFails, insertFails), v2, ip2)
            == RowsFor(rows, v2, ip2)
  {
    var afterDelete := if deleteFails then rows else WithoutKey(rows, videoId, ip);
    RowsForWithoutKey(rows, videoId, ip, v2, ip2);
    RowsForAppend(afterDelete, [Reaction(videoId, ip, kind)], v2, ip2);
  }

  /** No two rows share a (video, identity) pair. */
  ghost predicate OneRowPerKey(rows: seq<Reaction>)
  {
    forall i, j :: 0 <= i < j < |rows| ==> !HasKey(rows[j], rows[i].videoId, rows[i].ipAddress)
  }

  /** A write whose delete succeeds keeps the table at one row per pair. */
  lemma WritePreservesOneRowPerKey(rows: seq<Reaction>, videoId: string, ip: string, kind: string, insertFails: bool)
    requires OneRowPerKey(rows)
    ensures OneRowPerKey(WriteProtocol(rows, videoId, ip, kind, false, insertFails))
  {
    var d := WithoutKey(rows, videoId, ip);
    DeletePreservesOneRowPerKey(rows, videoId, ip);
    if !insertFails {
      var w := d + [Reaction(videoId, ip, kind)];
      forall i, j | 0 <= i < j < |w| ensures !HasKey(w[j], w[i].videoId, w[i].ipAddress) {
        if j == |w| - 1 {
          assert w[i] in d;
        }
      }
    }
  }

  /** Deleting a pair keeps the table at one row per pair. */
  lemma {:induction false} DeletePreservesOneRowPerKey(rows: seq<Reaction>, videoId: string, ip: string)
    requires OneRowPerKey(rows)
    ensures OneRowPerKey(WithoutKey(rows, videoId, ip))
    decreases |rows|
  {
    if rows != [] {
      var t := rows[1..];
      assert OneRowPerKey(t) by {
        forall i, j | 0 <= i < j < |t| ensures !HasKey(t[j], t[i].videoId, t[i].ipAddress) {
          assert t[i] == rows[i + 1] && t[j] == rows[j + 1];
        }
      }
      DeletePreservesOneRowPerKey(t, videoId, ip);
      var w := WithoutKey(rows, videoId, ip);
      var rest := WithoutKey(t, videoId, ip);
      if !HasKey(rows[0], videoId, ip) {
        assert w == [rows[0]] + rest;
        forall j | 0 < j < |w| ensures !HasKey(w[j], w[0].videoId, w[0].ipAddress) {
          assert w[j] in rest;
          assert w[j] in t;
          var k :| 0 <= k < |t| && t[k] == w[j];
          assert rows[k + 1] == w[j];
        }
      }
    }
  }

  /** Without a successful delete the protocol can leave two rows for one pair. */
  lemma DeleteFailureDuplicates()
    ensures var rows := [Reaction("vid1", "A", "love")];
            |RowsFor(WriteProtocol(rows, "vid1", "A", "like", true, false), "vid1", "A")| == 2
  {
    var rows := [Reaction("vid1", "A", "love")];
    RowsForAppend(rows, [Reaction("vid1", "A", "like")], "vid1", "A");
  }

  // ---------------------------------------------------------------------------
  // Server-side reads

  /** `check_ip_has_reacted`: one `(true, kind)` row per stored reaction of the pair. */
  function StatusReply(rows: seq<Reaction>, videoId: string, ip: string): (r: seq<StatusRow>)
    ensures |r| == |RowsFor(rows, videoId, ip)|
    ensures forall i :: 0 <= i < |r| ==> r[i] == StatusRow(true, RowsFor(rows, videoId, ip)[i].reactionType)
  {
    var mine := RowsFor(rows, videoId, ip);
    seq(|mine|, i requires 0 <= i < |mine| => StatusRow(true, mine[i].reactionType))
  }

  /** The kinds of the reactions stored for a video, in table order. */
  function KindsFor(rows: seq<Reaction>, videoId: string): (ks: seq<string>)
    ensures |ks| <= |rows|
    decreases |rows|
  {
    if rows == [] then []
    else (if rows[0].videoId == videoId then [rows[0].reactionType] else []) + KindsFor(rows[1..], videoId)
  }

  /** Count one more reaction of kind `k`: bump its entry, or append a new entry at the end. */
  function AddKind(counts: seq<ReactionCount>, k: string): (r: seq<ReactionCount>)
    decreases |counts|
  {
    if counts == [] then [ReactionCount(k, 1)]
    else if counts[0].reactionType == k then [ReactionCount(k, counts[0].count + 1)] + counts[1..]
    else [counts[0]] + AddKind(counts[1..], k)
  }

  /** Grouping by kind, in order of first appearance: one entry per distinct kind. */
  function Group(kinds: seq<string>): seq<ReactionCount>
    decreases |kinds|
  {
    if kinds == [] then [] else AddKind(Group(kinds[..|kinds| - 1]), kinds[|kinds| - 1])
  }

  /** `get_video_reaction_counts`: the video's reactions grouped by kind. */
  function CountsOf(rows: seq<Reaction>, videoId: string): (r: seq<ReactionCount>)
    ensures DistinctKinds(r)
  {
    GroupDistinct(KindsFor(rows, videoId));
    Group(KindsFor(rows, videoId))
  }

  predicate DistinctKinds(counts: seq<ReactionCount>)
  {
    forall i, j :: 0 <= i < j < |counts| ==> counts[i].reactionType != counts[j].reactionType
  }

  /** The kinds that have an entry. */
  function TypesOf(counts: seq<ReactionCount>): set<string>
  {
    set i | 0 <= i < |counts| :: counts[i].reactionType
  }

  lemma TypesOfCons(x: ReactionCount, s: seq<ReactionCount>)
    ensures TypesOf([x] + s) == {x.reactionType} + TypesOf(s)
  {
    var c := [x] + s;
    forall t | t in TypesOf(c) ensures t in {x.reactionType} + TypesOf(s) {
      var i :| 0 <= i < |c| && c[i].reactionType == t;
      if i > 0 {
        assert s[i - 1] == c[i];
      }
    }
    forall t | t in TypesOf(s) ensures t in TypesOf(c) {
      var i :| 0 <= i < |s| && s[i].reactionType == t;
      assert c[i + 1] == s[i];
    }
    assert c[0] == x;
  }

  lemma DistinctKindsCons(x: ReactionCount, s: seq<ReactionCount>)
    ensures DistinctKinds([x] + s) <==> DistinctKinds(s) && x.reactionType !in TypesOf(s)
  {
    var c := [x] + s;
    assert forall i :: 0 <= i < |s| ==> c[i + 1] == s[i];
    if DistinctKinds(c) {
      assert DistinctKinds(s) by {
        forall i, j | 0 <= i < j < |s| ensures s[i].reactionType != s[j].reactionType {
          assert c[i + 1] == s[i] && c[j + 1] == s[j];
        }
      }
      forall i | 0 <= i < |s| ensures s[i].reactionType != x.reactionType {
        assert c[0].reactionType != c[i + 1].reactionType;
      }
    }
  }

  /** Counting a reaction of kind `k` adds `k` to the kinds and no other. */
  lemma {:induction false} AddKindTypes(counts: seq<ReactionCount>, k: string)
    ensures TypesOf(AddKind(counts, k)) == TypesOf(counts) + {k}
    decreases |counts|
  {
    if counts == [] {
      assert AddKind(counts, k)[0].reactionType == k;
    } else {
      var t := counts[1..];
      assert counts == [counts[0]] + t;
      TypesOfCons(counts[0], t);
      if counts[0].reactionType == k {
        TypesOfCons(ReactionCount(k, counts[0].count + 1), t);
      } else {
        AddKindTypes(t, k);
        TypesOfCons(counts[0], AddKind(t, k));
      }
    }
  }

  /** Counting one more reaction keeps one entry per kind. */
  lemma {:induction false} AddKindDistinct(counts: seq<ReactionCount>, k: string)
    requires DistinctKinds(counts)
    ensures DistinctKinds(AddKind(counts, k))
    decreases |counts|
  {
    if counts != [] {
      var t := counts[1..];
      assert counts == [counts[0]] + t;
      DistinctKindsCons(counts[0], t);
      if counts[0].reactionType == k {
        DistinctKindsCons(ReactionCount(k, counts[0].count + 1), t);
      } else {
        AddKindDistinct(t, k);
        AddKindTypes(t, k);
        DistinctKindsCons(counts[0], AddKind(t, k));
      }
    }
  }

  /** The grouping has at most one entry per kind. */
  lemma {:induction false} GroupDistinct(kinds: seq<string>)
    ensures DistinctKinds(Group(kinds))
    decreases |kinds|
  {
    if kinds != [] {
      GroupDistinct(kinds[..|kinds| - 1]);
      AddKindDistinct(Group(kinds[..|kinds| - 1]), kinds[|kinds| - 1]);
    }
  }

  // ---------------------------------------------------------------------------
  // The remote store as an object

  /** The backend's state that the reaction subsystem reads and writes. */
  class Store {
    /** The file ids that have a `videos` row. */
    var videos: set<string>
    /** The `video_reactions` table. */
    var rows: seq<Reaction>

    constructor (videos: set<string>, rows: seq<Reaction>)
      ensures this.videos == videos && this.rows == rows
    {
      this.videos := videos;
      this.rows := rows;
    }

    /** `ensure_video_exists`: on success the video has a row afterwards; repeating it changes nothing more. */
    method EnsureVideoExists(fileId: string, fails: bool) returns (ok: bool)
      modifies this
      ensures ok == !fails
      ensures videos == if fails then old(videos) else old(videos) + {fileId}
      ensures rows == old(rows)
    {
      ok := !fails;
      if !fails {
        videos := videos + {fileId};
      }
    }

    /** `check_ip_has_reacted`; `None` stands for an error reply. */
    method CheckIpHasReacted(videoId: string, ip: string, fails: bool) returns (reply: Option<seq<StatusRow>>)
      ensures reply == if fails then None else Some(StatusReply(rows, videoId, ip))
    {
      reply := if fails then None else Some(StatusReply(rows, videoId, ip));
    }

    /** `get_video_reaction_counts`; `None` stands for an error reply. */
    method GetVideoReactionCounts(videoId: string, fails: bool) returns (reply: Option<seq<ReactionCount>>)
      ensures reply == if fails then None else Some(CountsOf(rows, videoId))
    {
      reply := if fails then None else Some(CountsOf(rows, videoId));
    }

    /** The delete step: all rows of the pair go, unless the request fails. */
    method DeleteReactions(videoId: string, ip: string, fails: bool) returns (ok: bool)
      modifies this
      ensures ok == !fails
      ensures rows == if fails then old(rows) else WithoutKey(old(rows), videoId, ip)
      ensures videos == old(videos)
    {
      ok := !fails;
      if !fails {
        rows := WithoutKey(rows, videoId, ip);
      }
    }

    /** The insert step: the row is appended, unless the request fails. */
    method InsertReaction(row: Reaction, fails: bool) returns (ok: bool)
      modifies this
      ensures ok == !fails
      ensures rows == if fails then old(rows) else old(rows) + [row]
      ensures videos == old(videos)
    {
      ok := !fails;
      if !fails {
        rows := rows + [row];
      }
    }
  }
}
