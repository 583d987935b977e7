/**
 * The playback gate of the video player: the lock overlay, the VAST ad
 * overlay, the play button's enabled state, and `formatTime`.
 */
module Player {

  /** The lock overlay: shown once the reaction status is known and the visitor has not reacted. */
  predicate LockShown(hasReacted: bool, reactionsLoading: bool)
  {
    !hasReacted && !reactionsLoading
  }

  /** The VAST overlay blocks while it is showing and has not ended. */
  predicate VastBlocks(showVastAd: bool, vastAdEnded: bool)
  {
    showVastAd && !vastAdEnded
  }

  /** The play button's `disabled` expression. */
  predicate PlayDisabled(hasReacted: bool, reactionsLoading: bool, showVastAd: bool, vastAdEnded: bool)
  {
    LockShown(hasReacted, reactionsLoading) || VastBlocks(showVastAd, vastAdEnded)
  }

  /** The gate never locks while the status is loading, and a reaction always unlocks it. */
  lemma GateFollowsStatus(hasReacted: bool, reactionsLoading: bool)
    ensures reactionsLoading ==> !LockShown(hasReacted, reactionsLoading)
    ensures hasReacted ==> !LockShown(hasReacted, reactionsLoading)
    ensures LockShown(hasReacted, reactionsLoading) <==> !hasReacted && !reactionsLoading
  {
  }

  /** The player's own playback state. */
  class PlayerState {
    var isPlaying: bool
    var showVastAd: bool
    var vastAdEnded: bool
    /** Whether the `<video>` element is mounted (`videoRef.current`). */
    var hasVideoElement: bool

    constructor (hasVideoElement: bool)
      ensures !isPlaying && !showVastAd && !vastAdEnded && this.hasVideoElement == hasVideoElement
    {
      isPlaying := false;
      showVastAd := false;
      vastAdEnded := false;
      this.hasVideoElement := hasVideoElement;
    }

    /**
     * `togglePlay`: a no-op exactly when the play button is disabled (or no
     * element is mounted); otherwise it flips `isPlaying`.
     */
    method TogglePlay(hasReacted: bool, reactionsLoading: bool)
      modifies this`isPlaying
      ensures isPlaying != old(isPlaying)
              <==> !PlayDisabled(hasReacted, reactionsLoading, showVastAd, vastAdEnded) && hasVideoElement
    {
      if !hasReacted && !reactionsLoading {
        return;
      }
      if showVastAd && !vastAdEnded {
        return;
      }
      if hasVideoElement {
        isPlaying := !isPlaying;
      }
    }

    /** `handleVastAdEnd`: once ended, the ad never blocks again. */
    method HandleVastAdEnd()
      modifies this`showVastAd, this`vastAdEnded
      ensures vastAdEnded && !showVastAd
      ensures !VastBlocks(showVastAd, vastAdEnded)
    {
      vastAdEnded := true;
      showVastAd := false;
    }

    /**
     * The effect that looks up an active `stream-vast` ad once the visitor has
     * reacted; `adFound` is the outcome of that query. After the ad ended the
     * lookup is not triggered and the state stays as it is.
     */
    method CheckVastAds(hasReacted: bool, reactionsLoading: bool, adFound: bool)
      modifies this`showVastAd
      ensures showVastAd == (old(showVastAd) || (hasReacted && !reactionsLoading && !vastAdEnded && adFound))
      ensures vastAdEnded ==> showVastAd == old(showVastAd)
    {
      if hasReacted && !reactionsLoading && !vastAdEnded {
        if adFound {
          showVastAd := true;
        }
      }
    }
  }

  // ---------------------------------------------------------------------------
  // formatTime over whole seconds

  predicate IsDigitChar(c: char) { '0' <= c <= '9' }

  predicate AllDigits(s: string) { forall i :: 0 <= i < |s| ==> IsDigitChar(s[i]) }

  function DigitChar(d: nat): (c: char)
    requires d < 10
    ensures IsDigitChar(c)
  {
    ('0' as int + d) as char
  }

  /** The value of a string of decimal digits. */
  function DigitsValue(s: string): nat
    requires AllDigits(s)
    decreases |s|
  {
    if s == [] then 0 else DigitsValue(s[..|s| - 1]) * 10 + (s[|s| - 1] as int - '0' as int)
  }

  /** `n.toString()`: decimal digits without leading zeros. */
  function NatToString(n: nat): (s: string)
    ensures |s| >= 1 && AllDigits(s)
    ensures s[0] == '0' ==> n == 0
    ensures n < 10 ==> |s| == 1
    ensures 10 <= n < 100 ==> |s| == 2
    decreases n
  {
    if n < 10 then [DigitChar(n)] else NatToString(n / 10) + [DigitChar(n % 10)]
  }

  lemma {:induction false} NatToStringValue(n: nat)
    ensures DigitsValue(NatToString(n)) == n
    decreases n
  {
    if n >= 10 {
      NatToStringValue(n / 10);
      var s := NatToString(n);
      assert s[..|s| - 1] == NatToString(n / 10);
    }
  }

  /** `s.padStart(2, '0')` */
  function PadStart2(s: string): (r: string)
  {
    if |s| >= 2 then s else seq(2 - |s|, _ => '0') + s
  }

  lemma PadStart2Value(n: nat)
    requires n < 100
    ensures var p := PadStart2(NatToString(n)); |p| == 2 && AllDigits(p) && DigitsValue(p) == n
  {
    NatToStringValue(n);
    var s := NatToString(n);
    if n < 10 {
      var p := PadStart2(s);
      assert p == ['0', s[0]];
      assert p[..1] == ['0'];
    }
  }

  /**
   * `formatTime`: `m:ss`, where the minutes are written without leading zeros,
   * the seconds take exactly two digits, `s < 60` and `m * 60 + s == t`.
   */
  function FormatTime(t: nat): (r: string)
    ensures |r| >= 4 && r[|r| - 3] == ':'
    ensures AllDigits(r[..|r| - 3]) && AllDigits(r[|r| - 2..])
    ensures r[0] == '0' ==> |r| == 4
    ensures DigitsValue(r[|r| - 2..]) < 60
    ensures DigitsValue(r[..|r| - 3]) * 60 + DigitsValue(r[|r| - 2..]) == t
  {
    var m := NatToString(t / 60);
    var s := PadStart2(NatToString(t % 60));
    NatToStringValue(t / 60);
    PadStart2Value(t % 60);
    var r := m + [':'] + s;
    assert r[..|r| - 3] == m && r[|r| - 2..] == s && r[0] == m[0];
    r
  }
}
