/**
 * The reaction session controller (`useVideoReactions`): per mounted video it
 * holds the visitor's identity, whether and how the visitor has reacted, the
 * reaction counts and a loading flag, and it sequences the registrar, the
 * status and count queries and the delete-then-insert write against the store.
 */
module ReactionHook {
  import opened Common
  import Utils
  import ClientIp
  import opened ReactionTable

  // ---------------------------------------------------------------------------
  // Input validation

  /** The class `[\w-_.]`: in `/[^\w-_.]/g` the `-` after `\w` is a literal. */
  predicate IsVideoIdChar(c: char) { Utils.IsWordChar(c) || c == '-' || c == '_' || c == '.' }

  /** `videoId.replace(/[^\w-_.]/g, '')` */
  function StripVideoId(s: string): (r: string)
    ensures |r| <= |s|
    ensures forall i :: 0 <= i < |r| ==> IsVideoIdChar(r[i])
    decreases |s|
  {
    if s == [] then []
    else (if IsVideoIdChar(s[0]) then [s[0]] else []) + StripVideoId(s[1..])
  }

  /** `reactionType.replace(/[^\w]/g, '')` */
  function StripReactionType(s: string): (r: string)
    ensures |r| <= |s|
    decreases |s|
  {
    if s == [] then []
    else (if Utils.IsWordChar(s[0]) then [s[0]] else []) + StripReactionType(s[1..])
  }

  /** The hook's check: the stripped id is non-empty and equal to the id. */
  predicate IsValidVideoId(videoId: string)
  {
    var s := StripVideoId(videoId);
    s != "" && s == videoId
  }

  /** The hook's check of a reaction kind. */
  predicate IsValidReactionType(reactionType: string)
  {
    var s := StripReactionType(reactionType);
    s != "" && s == reactionType
  }

  /** The hook's strip and `sanitizeUrlParam` keep the same characters. */
  lemma {:induction false} StripVideoIdIsSanitizeUrlParam(s: string)
    ensures StripVideoId(s) == Utils.SanitizeUrlParam(s)
    decreases |s|
  {
    if s != [] {
      StripVideoIdIsSanitizeUrlParam(s[1..]);
      assert IsVideoIdChar(s[0]) <==> Utils.IsSafeChar(s[0]);
    }
  }

  /** The hook accepts exactly the non-empty fixed points of `sanitizeUrlParam`, i.e. the non-empty safe strings. */
  lemma ValidVideoIdIff(videoId: string)
    ensures IsValidVideoId(videoId) <==> videoId != "" && Utils.SanitizeUrlParam(videoId) == videoId
    ensures IsValidVideoId(videoId) <==> videoId != "" && Utils.AllSafe(videoId)
  {
    StripVideoIdIsSanitizeUrlParam(videoId);
    Utils.SanitizeUrlParamFixedPoint(videoId);
  }

  /** Every identifier `validateFileId` accepts also passes the hook's check. */
  lemma FileIdPassesHookCheck(videoId: string)
    requires Utils.ValidateFileId(Some(videoId))
    ensures IsValidVideoId(videoId)
  {
    ValidVideoIdIff(videoId);
  }

  /** The converse fails: the hook accepts two adjacent dots and ids over 100 characters. */
  lemma HookCheckIsWeaker()
    ensures IsValidVideoId("a..b") && !Utils.ValidateFileId(Some("a..b"))
    ensures var long := seq(101, _ => 'a'); IsValidVideoId(long) && !Utils.ValidateFileId(Some(long))
  {
    ValidVideoIdIff("a..b");
    assert Utils.DoubleDotAt("a..b", 1);
    var long := seq(101, _ => 'a');
    ValidVideoIdIff(long);
  }

  lemma {:induction false} StripReactionTypeFixedPoint(s: string)
    ensures StripReactionType(s) == s <==> forall i :: 0 <= i < |s| ==> Utils.IsWordChar(s[i])
    decreases |s|
  {
    if s != [] {
      StripReactionTypeFixedPoint(s[1..]);
      if !Utils.IsWordChar(s[0]) {
        assert |StripReactionType(s[1..])| < |s|;
      } else {
        assert StripReactionType(s) == [s[0]] + StripReactionType(s[1..]);
        if forall i :: 0 <= i < |s| ==> Utils.IsWordChar(s[i]) {
          assert forall i :: 0 <= i < |s[1..]| ==> Utils.IsWordChar(s[1..][i]);
        }
      }
    }
  }

  /** A reaction kind is accepted iff it is a non-empty string over `[A-Za-z0-9_]`. */
  lemma ValidReactionTypeIff(reactionType: string)
    ensures IsValidReactionType(reactionType)
            <==> reactionType != "" && forall i :: 0 <= i < |reactionType| ==> Utils.IsWordChar(reactionType[i])
  {
    StripReactionTypeFixedPoint(reactionType);
  }

  /** The write path goes ahead only with an identity, a valid video id and a valid kind. */
  predicate WriteAllowed(ip: string, videoId: string, reactionType: string)
  {
    ip != "" && videoId != "" && IsValidVideoId(videoId) && IsValidReactionType(reactionType)
  }

  /** One character outside its class is enough to keep a write from the store. */
  lemma ForeignCharRejected(ip: string, videoId: string, reactionType: string)
    requires (exists i :: 0 <= i < |videoId| && !Utils.IsSafeChar(videoId[i]))
             || (exists i :: 0 <= i < |reactionType| && !Utils.IsWordChar(reactionType[i]))
    ensures !WriteAllowed(ip, videoId, reactionType)
  {
    ValidVideoIdIff(videoId);
    ValidReactionTypeIff(reactionType);
  }

  /** Path separators and markup never reach the store. */
  lemma InjectionRejected(ip: string)
    ensures !WriteAllowed(ip, "../etc/passwd", "like")
    ensures !WriteAllowed(ip, "vid1", "like<script>")
  {
    var path, markup := "../etc/passwd", "like<script>";
    assert path[2] == '/' && markup[4] == '<';
    ForeignCharRejected(ip, path, "like");
    ForeignCharRejected(ip, "vid1", markup);
  }

  // ---------------------------------------------------------------------------
  // Identity

  /** The body of the `get-client-ip` reply: nothing, a bare string, or an object with optional fields. */
  datatype IpPayload = NoPayload | TextPayload(text: string) | ObjectPayload(ip: Option<string>, clientIp: Option<string>)

  datatype IpReply = InvokeError | Payload(data: IpPayload)

  const FallbackIdentity: string := "127.0.0.1"

  /** How an object is stringified when it is used as a query value. */
  const ObjectText: string := "[object Object]"

  predicate Truthy(o: Option<string>) { o.Some? && o.value != "" }

  /**
   * `fetchIp`: `data?.ip || data?.clientIp || data`, else the loopback fallback.
   * An object with neither field is itself truthy, and the source keeps it as
   * the identity; the model keeps its string form.
   */
  function ResolveIdentity(reply: IpReply): (ip: string)
    ensures ip != ""
    ensures reply.InvokeError? || reply == Payload(NoPayload) || reply == Payload(TextPayload(""))
            ==> ip == FallbackIdentity
    ensures reply.Payload? && reply.data.TextPayload? && reply.data.text != "" ==> ip == reply.data.text
    ensures reply.Payload? && reply.data.ObjectPayload? && Truthy(reply.data.ip) ==> ip == reply.data.ip.value
    ensures reply.Payload? && reply.data.ObjectPayload? && !Truthy(reply.data.ip) && Truthy(reply.data.clientIp)
            ==> ip == reply.data.clientIp.value
  {
    match reply
    case InvokeError => FallbackIdentity
    case Payload(NoPayload) => FallbackIdentity
    case Payload(TextPayload(t)) => if t != "" then t else FallbackIdentity
    case Payload(ObjectPayload(a, b)) =>
      if Truthy(a) then a.value else if Truthy(b) then b.value else ObjectText
  }

  /** With the edge function's reply, the identity is the address the edge function selected. */
  lemma EdgeFunctionIdentity(xff: Option<string>, cf: Option<string>, xReal: Option<string>)
    ensures ResolveIdentity(Payload(ObjectPayload(Some(ClientIp.SelectIp(xff, cf, xReal)), None)))
            == ClientIp.SelectIp(xff, cf, xReal)
  {
  }

  // ---------------------------------------------------------------------------
  // Reading the replies

  /** What `checkReactionStatus` makes of a reply: the first row decides, an error means "not reacted". */
  function StatusFromReply(reply: Option<seq<StatusRow>>): (s: (bool, Option<string>))
    ensures s.0 <==> s.1.Some?
    ensures s.0 <==> reply.Some? && |reply.value| > 0 && reply.value[0].hasReacted
    ensures s.0 ==> s.1 == Some(reply.value[0].reactionType)
  {
    match reply
    case None => (false, None)
    case Some(rows) =>
      if |rows| > 0 && rows[0].hasReacted then (true, Some(rows[0].reactionType)) else (false, None)
  }

  /** The status the store reports for a pair. */
  function StatusOf(rows: seq<Reaction>, videoId: string, ip: string): (bool, Option<string>)
  {
    StatusFromReply(Some(StatusReply(rows, videoId, ip)))
  }

  /** The store reports a reaction exactly when the pair has a row, with the kind of its oldest row. */
  lemma StatusOfRows(rows: seq<Reaction>, videoId: string, ip: string)
    ensures StatusOf(rows, videoId, ip).0 <==> RowsFor(rows, videoId, ip) != []
    ensures RowsFor(rows, videoId, ip) != []
            ==> StatusOf(rows, videoId, ip).1 == Some(RowsFor(rows, videoId, ip)[0].reactionType)
  {
    var mine := RowsFor(rows, videoId, ip);
    if mine != [] {
      assert StatusReply(rows, videoId, ip)[0] == StatusRow(true, mine[0].reactionType);
    }
  }

  /** After a complete write the store reports the newest kind for the writer... */
  lemma StatusAfterWrite(rows: seq<Reaction>, videoId: string, ip: string, kind: string)
    ensures StatusOf(WriteProtocol(rows, videoId, ip, kind, false, false), videoId, ip) == (true, Some(kind))
  {
    WriteLeavesOneRow(rows, videoId, ip, kind);
    StatusOfRows(WriteProtocol(rows, videoId, ip, kind, false, false), videoId, ip);
  }

  /** ... and the same as before for every other pair. */
  lemma StatusOfOtherPair(rows: seq<Reaction>, videoId: string, ip: string, kind: string,
                          deleteFails: bool, insertFails: bool, v2: string, ip2: string)
    requires videoId != v2 || ip != ip2
    ensures StatusOf(WriteProtocol(rows, videoId, ip, kind, deleteFails, insertFails), v2, ip2)
            == StatusOf(rows, v2, ip2)
  {
    WriteKeepsOtherKeys(rows, videoId, ip, kind, deleteFails, insertFails, v2, ip2);
  }

  // ---------------------------------------------------------------------------
  // The controller

  /** Outcomes of the backend calls of one status or count refresh. */
  datatype ReadFaults = ReadFaults(ensureFails: bool, queryFails: bool)

  /** Outcomes of the backend calls of one `addReaction`. */
  datatype WriteFaults = WriteFaults(ensureFails: bool, deleteFails: bool, insertFails: bool)

  /** The `videos` rows after one `ensureVideoExists` call for `videoId`. */
  function EnsuredVideos(videos: set<string>, videoId: string, fails: bool): set<string>
  {
    if IsValidVideoId(videoId) && !fails then videos + {videoId} else videos
  }

  class ReactionSession {
    const store: Store
    var videoId: string
    var ipAddress: string
    var hasReacted: bool
    var userReaction: Option<string>
    var reactionCounts: seq<ReactionCount>
    var loading: bool

    /** The hook's initial state on mount. */
    constructor (videoId: string, store: Store)
      ensures this.videoId == videoId && this.store == store
      ensures ipAddress == "" && !hasReacted && userReaction == None && reactionCounts == [] && loading
    {
      this.store := store;
      this.videoId := videoId;
      ipAddress := "";
      hasReacted := false;
      userReaction := None;
      reactionCounts := [];
      loading := true;
    }

    /**
     * The state the effect leaves once the status and count refreshes are
     * done: not loading; the status and counts come from the store, or are the
     * reset values when the id is invalid or the query failed.
     */
    ghost predicate SyncedFrom(videosBefore: set<string>, rowsBefore: seq<Reaction>, sf: ReadFaults, cf: ReadFaults)
      reads this, store
    {
      && !loading
      && store.rows == rowsBefore
      && store.videos == EnsuredVideos(EnsuredVideos(videosBefore, videoId, sf.ensureFails), videoId, cf.ensureFails)
      && (hasReacted, userReaction)
         == (if IsValidVideoId(videoId) && !sf.queryFails then StatusOf(store.rows, videoId, ipAddress) else (false, None))
      && reactionCounts
         == (if IsValidVideoId(videoId) && !cf.queryFails then CountsOf(store.rows, videoId) else [])
    }

    /** `ensureVideoExists`: an empty or invalid id returns null without contacting the store. */
    method EnsureVideoExists(fails: bool) returns (ok: bool)
      modifies store
      ensures ok <==> IsValidVideoId(videoId) && !fails
      ensures store.videos == EnsuredVideos(old(store.videos), videoId, fails)
      ensures store.rows == old(store.rows)
    {
      if videoId == "" {
        return false;
      }
      if !IsValidVideoId(videoId) {
        return false;
      }
      ok := store.EnsureVideoExists(videoId, fails);
    }

    /**
     * `fetchIp`: the identity is resolved once; it is never empty afterwards.
     * Setting a new identity re-runs the effect.
     */
    method FetchIp(reply: IpReply, sf: ReadFaults, cf: ReadFaults)
      modifies this, store
      ensures ipAddress == ResolveIdentity(reply) && ipAddress != ""
      ensures videoId == old(videoId)
      ensures ipAddress == old(ipAddress) ==>
                hasReacted == old(hasReacted) && userReaction == old(userReaction)
                && reactionCounts == old(reactionCounts) && loading == old(loading)
                && store.videos == old(store.videos) && store.rows == old(store.rows)
      ensures ipAddress != old(ipAddress) && videoId != "" ==>
                SyncedFrom(old(store.videos), old(store.rows), sf, cf)
      ensures ipAddress != old(ipAddress) && videoId == "" ==>
                hasReacted == old(hasReacted) && userReaction == old(userReaction)
                && reactionCounts == old(reactionCounts) && loading == old(loading)
                && store.videos == old(store.videos) && store.rows == old(store.rows)
    {
      var ip := ResolveIdentity(reply);
      if ip != ipAddress {
        ipAddress := ip;
        SyncVideo(sf, cf);
      }
    }

    /** `checkReactionStatus` */
    method CheckReactionStatus(f: ReadFaults)
      modifies this, store
      ensures videoId == old(videoId) && ipAddress == old(ipAddress) && reactionCounts == old(reactionCounts)
      ensures store.rows == old(store.rows)
      ensures old(ipAddress) == "" || old(videoId) == "" ==>
                hasReacted == old(hasReacted) && userReaction == old(userReaction) && loading == old(loading)
                && store.videos == old(store.videos)
      ensures old(ipAddress) != "" && old(videoId) != "" ==>
                !loading
                && store.videos == EnsuredVideos(old(store.videos), videoId, f.ensureFails)
                && (hasReacted, userReaction)
                   == (if !IsValidVideoId(videoId) then (old(hasReacted), old(userReaction))
                       else if f.queryFails then (false, None)
                       else StatusOf(store.rows, videoId, ipAddress))
    {
      if ipAddress == "" || videoId == "" {
        return;
      }
      var _ := EnsureVideoExists(f.ensureFails);
      if !IsValidVideoId(videoId) {
        loading := false;
        return;
      }
      var reply := store.CheckIpHasReacted(videoId, ipAddress, f.queryFails);
      var status := StatusFromReply(reply);
      hasReacted, userReaction := status.0, status.1;
      loading := false;
    }

    /** `fetchReactionCounts`: an error empties the counts; an invalid id leaves them alone. */
    method FetchReactionCounts(f: ReadFaults)
      modifies this, store
      ensures videoId == old(videoId) && ipAddress == old(ipAddress)
      ensures hasReacted == old(hasReacted) && userReaction == old(userReaction) && loading == old(loading)
      ensures store.rows == old(store.rows)
      ensures old(videoId) == "" ==> reactionCounts == old(reactionCounts) && store.videos == old(store.videos)
      ensures old(videoId) != "" ==>
                store.videos == EnsuredVideos(old(store.videos), videoId, f.ensureFails)
                && reactionCounts
                   == (if !IsValidVideoId(videoId) then old(reactionCounts)
                       else if f.queryFails then []
                       else CountsOf(store.rows, videoId))
    {
      if videoId == "" {
        return;
      }
      var _ := EnsureVideoExists(f.ensureFails);
      if !IsValidVideoId(videoId) {
        return;
      }
      var reply := store.GetVideoReactionCounts(videoId, f.queryFails);
      reactionCounts := if reply.Some? then reply.value else [];
    }

    /**
     * `addReaction`: ensure the video, then (only with an identity, a valid id
     * and a valid kind) delete the pair's rows and insert the new one. Only a
     * successful insert unlocks, optimistically; a failed delete is ignored and
     * a failed insert changes no local state.
     */
    method AddReaction(reactionType: string, f: WriteFaults)
      modifies this, store
      ensures videoId == old(videoId) && ipAddress == old(ipAddress)
      ensures reactionCounts == old(reactionCounts) && loading == old(loading)
      ensures store.videos == if ipAddress != "" && videoId != ""
                              then EnsuredVideos(old(store.videos), videoId, f.ensureFails)
                              else old(store.videos)
      ensures store.rows == if WriteAllowed(ipAddress, videoId, reactionType)
                            then WriteProtocol(old(store.rows), videoId, ipAddress, reactionType, f.deleteFails, f.insertFails)
                            else old(store.rows)
      ensures (hasReacted, userReaction)
              == if WriteAllowed(ipAddress, videoId, reactionType) && !f.insertFails
                 then (true, Some(reactionType))
                 else (old(hasReacted), old(userReaction))
    {
      if ipAddress == "" || videoId == "" {
        return;
      }
      var _ := EnsureVideoExists(f.ensureFails);
      if !IsValidVideoId(videoId) {
        return;
      }
      if !IsValidReactionType(reactionType) {
        return;
      }
      var deleted := store.DeleteReactions(videoId, ipAddress, f.deleteFails);
      var inserted := store.InsertReaction(Reaction(videoId, ipAddress, reactionType), f.insertFails);
      if !inserted {
        return;
      }
      hasReacted := true;
      userReaction := Some(reactionType);
    }

    /** The reset at the start of the effect. */
    method ResetState()
      modifies this
      ensures !hasReacted && userReaction == None && reactionCounts == [] && loading
      ensures videoId == old(videoId) && ipAddress == old(ipAddress)
    {
      hasReacted := false;
      userReaction := None;
      reactionCounts := [];
      loading := true;
    }

    /**
     * The effect that runs whenever the video id or the identity changes:
     * with both present, reset to (not reacted, no kind, no counts, loading)
     * and re-pull status and counts.
     */
    method SyncVideo(sf: ReadFaults, cf: ReadFaults)
      modifies this, store
      ensures videoId == old(videoId) && ipAddress == old(ipAddress)
      ensures old(videoId) == "" || old(ipAddress) == "" ==>
                hasReacted == old(hasReacted) && userReaction == old(userReaction)
                && reactionCounts == old(reactionCounts) && loading == old(loading)
                && store.videos == old(store.videos) && store.rows == old(store.rows)
      ensures old(videoId) != "" && old(ipAddress) != "" ==> SyncedFrom(old(store.videos), old(store.rows), sf, cf)
    {
      if videoId == "" || ipAddress == "" {
        return;
      }
      ResetState();
      CheckReactionStatus(sf);
      FetchReactionCounts(cf);
    }

    /** A new video id re-runs the effect; the same id changes nothing. */
    method ChangeVideo(newVideoId: string, sf: ReadFaults, cf: ReadFaults)
      modifies this, store
      ensures videoId == newVideoId && ipAddress == old(ipAddress)
      ensures newVideoId == old(videoId) || newVideoId == "" || ipAddress == "" ==>
                hasReacted == old(hasReacted) && userReaction == old(userReaction)
                && reactionCounts == old(reactionCounts) && loading == old(loading)
                && store.videos == old(store.videos) && store.rows == old(store.rows)
      ensures newVideoId != old(videoId) && newVideoId != "" && ipAddress != "" ==>
                SyncedFrom(old(store.videos), old(store.rows), sf, cf)
    {
      if newVideoId != videoId {
        videoId := newVideoId;
        SyncVideo(sf, cf);
      }
    }

    /**
     * The change-notification callback, and equally the delayed re-fetch after
     * a successful insert: re-pull the counts, then the status.
     */
    method Notify(cf: ReadFaults, sf: ReadFaults)
      modifies this, store
      ensures videoId == old(videoId) && ipAddress == old(ipAddress)
      ensures store.rows == old(store.rows)
      ensures videoId == "" ==>
                hasReacted == old(hasReacted) && userReaction == old(userReaction)
                && reactionCounts == old(reactionCounts) && loading == old(loading)
                && store.videos == old(store.videos)
      ensures videoId != "" && ipAddress == "" ==>
                hasReacted == old(hasReacted) && userReaction == old(userReaction) && loading == old(loading)
                && store.videos == EnsuredVideos(old(store.videos), videoId, cf.ensureFails)
                && reactionCounts
                   == (if !IsValidVideoId(videoId) then old(reactionCounts)
                       else if cf.queryFails then [] else CountsOf(store.rows, videoId))
      ensures videoId != "" && ipAddress != "" ==>
                (if IsValidVideoId(videoId) then SyncedFrom(old(store.videos), old(store.rows), sf, cf)
                 else hasReacted == old(hasReacted) && userReaction == old(userReaction)
                      && reactionCounts == old(reactionCounts) && !loading && store.videos == old(store.videos))
    {
      FetchReactionCounts(cf);
      CheckReactionStatus(sf);
    }
  }
}
