/**
 * The home feed: a cursor over the featured videos moved by the prev/next
 * buttons, the arrow keys and the mouse wheel, and the progress indicators
 * beside the player.
 */
module Feed {
  import opened Common

  datatype VideoItem = VideoItem(id: string, title: string)

  // ---------------------------------------------------------------------------
  // One step of the cursor, on values

  /**
   * `handlePrevVideo`: one back, unless at the first video. The list length
   * plays no part; it is a parameter so that every step shares one shape.
   */
  function Prev(index: int, len: int): int
  {
    if index > 0 then index - 1 else index
  }

  /** `handleNextVideo`: one forward, unless at the last video. */
  function Next(index: int, len: int): int
  {
    if index < len - 1 then index + 1 else index
  }

  /** `handleWheel`: scrolling down moves forward, up moves back. */
  function Wheel(index: int, len: int, deltaY: int): int
  {
    if deltaY > 0 && index < len - 1 then index + 1
    else if deltaY < 0 && index > 0 then index - 1
    else index
  }

  /** What a key press does. */
  datatype KeyAction = GoPrev | GoNext | TogglePlayback | Ignore

  /** `handleKeyDown`'s mapping from a key to an action. */
  function KeyActionOf(key: string): (a: KeyAction)
    ensures a == GoPrev <==> key == "ArrowUp"
    ensures a == GoNext <==> key == "ArrowDown"
    ensures a == TogglePlayback <==> key == " "
  {
    if key == "ArrowUp" then GoPrev
    else if key == "ArrowDown" then GoNext
    else if key == " " then TogglePlayback
    else Ignore
  }

  /** The cursor after a key press. */
  function Key(index: int, len: int, key: string): int
  {
    match KeyActionOf(key)
    case GoPrev => Prev(index, len)
    case GoNext => Next(index, len)
    case _ => index
  }

  /** The cursor points at a video, or is 0 over an empty list. */
  predicate InBounds(index: int, len: int)
  {
    0 <= index && (len > 0 ==> index < len) && (len == 0 ==> index == 0)
  }

  /** No step takes the cursor out of bounds, and each moves it by at most one. */
  lemma StepsKeepBounds(index: int, len: nat, deltaY: int, key: string)
    requires InBounds(index, len)
    ensures InBounds(Prev(index, len), len) && InBounds(Next(index, len), len)
    ensures InBounds(Wheel(index, len, deltaY), len) && InBounds(Key(index, len, key), len)
    ensures -1 <= Prev(index, len) - index <= 0 && 0 <= Next(index, len) - index <= 1
  {
  }

  /** The wheel is next for a downward scroll, prev for an upward one, and nothing at rest. */
  lemma WheelIsPrevOrNext(index: int, len: int, deltaY: int)
    ensures deltaY > 0 ==> Wheel(index, len, deltaY) == Next(index, len)
    ensures deltaY < 0 ==> Wheel(index, len, deltaY) == Prev(index, len)
    ensures deltaY == 0 ==> Wheel(index, len, deltaY) == index
  {
  }

  /** The arrow keys are the buttons; every other key leaves the cursor alone. */
  lemma KeyIsPrevOrNext(index: int, len: int, key: string)
    ensures key == "ArrowUp" ==> Key(index, len, key) == Prev(index, len)
    ensures key == "ArrowDown" ==> Key(index, len, key) == Next(index, len)
    ensures key != "ArrowUp" && key != "ArrowDown" ==> Key(index, len, key) == index
  {
  }

  /** The prev button is disabled at the first video, the next button at the last. */
  predicate PrevDisabled(index: int) { index == 0 }
  predicate NextDisabled(index: int, len: int) { index == len - 1 }

  /** Over a non-empty list a button is disabled exactly when pressing it would change nothing. */
  lemma DisabledIffNoOp(index: int, len: nat)
    requires len > 0 && InBounds(index, len)
    ensures PrevDisabled(index) <==> Prev(index, len) == index
    ensures NextDisabled(index, len) <==> Next(index, len) == index
  {
  }

  /** Going forward and then back returns to the start, unless the first step was blocked. */
  lemma NextThenPrev(index: int, len: nat)
    requires InBounds(index, len)
    ensures !NextDisabled(index, len) && len > 0 ==> Prev(Next(index, len), len) == index
    ensures !PrevDisabled(index) ==> Next(Prev(index, len), len) == index
  {
  }

  // ---------------------------------------------------------------------------
  // Progress indicators

  datatype Indicator = Current | Past | Future

  /** The style of the indicator at `position`. */
  function Classify(position: int, current: int): (c: Indicator)
    ensures c == Current <==> position == current
    ensures c == Past <==> position < current
    ensures c == Future <==> position > current
  {
    if position == current then Current else if position < current then Past else Future
  }

  /** One indicator per video. */
  function Indicators(len: nat, current: int): (r: seq<Indicator>)
    ensures |r| == len
    decreases len
  {
    if len == 0 then [] else Indicators(len - 1, current) + [Classify(len - 1, current)]
  }

  /** The indicator at each position is classified by that position. */
  lemma {:induction false} IndicatorAt(len: nat, current: int, i: nat)
    requires i < len
    ensures Indicators(len, current)[i] == Classify(i, current)
    decreases len
  {
    if i < len - 1 {
      IndicatorAt(len - 1, current, i);
    }
  }

  function CountOf(s: seq<Indicator>, x: Indicator): nat
    decreases |s|
  {
    if s == [] then 0 else CountOf(s[..|s| - 1], x) + (if s[|s| - 1] == x then 1 else 0)
  }

  /** With the cursor in bounds exactly one indicator is current, and the videos before it are past. */
  lemma IndicatorCounts(len: nat, current: int)
    requires InBounds(current, len)
    ensures CountOf(Indicators(len, current), Current) == (if len > 0 then 1 else 0)
    ensures CountOf(Indicators(len, current), Past) == current
    ensures CountOf(Indicators(len, current), Future) == (if len > 0 then len - 1 - current else 0)
  {
    PrefixCounts(len, current, Current);
    PrefixCounts(len, current, Past);
    PrefixCounts(len, current, Future);
  }

  /** How many of the first `n` indicators have style `x`. */
  function ExpectedCount(n: nat, current: nat, x: Indicator): nat
  {
    match x
    case Current => if current < n then 1 else 0
    case Past => if current < n then current else n
    case Future => if current < n then n - 1 - current else 0
  }

  lemma CountOfSnoc(s: seq<Indicator>, x: Indicator, y: Indicator)
    ensures CountOf(s + [x], y) == CountOf(s, y) + (if x == y then 1 else 0)
  {
    assert (s + [x])[..|s|] == s;
  }

  /** One more position adds one to the count of its own style. */
  lemma ExpectedCountStep(n: nat, current: nat, x: Indicator)
    requires n > 0
    ensures ExpectedCount(n, current, x) == ExpectedCount(n - 1, current, x) + (if Classify(n - 1, current) == x then 1 else 0)
  {
  }

  lemma {:induction false} PrefixCounts(n: nat, current: nat, x: Indicator)
    ensures CountOf(Indicators(n, current), x) == ExpectedCount(n, current, x)
    decreases n
  {
    if n > 0 {
      var prev := Indicators(n - 1, current);
      var c := Classify(n - 1, current);
      assert Indicators(n, current) == prev + [c];
      PrefixCounts(n - 1, current, x);
      CountOfSnoc(prev, c, x);
      ExpectedCountStep(n, current, x);
    }
  }

  // ---------------------------------------------------------------------------
  // The page

  /** What the featured-videos query gave back: an error, or the rows (`null` when absent). */
  datatype LoadReply = LoadError | Loaded(data: Option<seq<VideoItem>>)

  class FeedPage {
    var videos: seq<VideoItem>
    var currentVideoIndex: int
    var loading: bool
    var isMuted: bool
    /** Whether the current `<video>` element is paused. */
    var videoPaused: bool

    ghost predicate Valid()
      reads this
    {
      InBounds(currentVideoIndex, |videos|)
    }

    constructor()
      ensures Valid()
      ensures videos == [] && currentVideoIndex == 0 && loading && !isMuted && !videoPaused
    {
      videos := [];
      currentVideoIndex := 0;
      loading := true;
      isMuted := false;
      videoPaused := false;
    }

    /** `loadFeaturedVideos`: take the rows (none when null) on success, keep the list on error, and stop loading. */
    method LoadFeaturedVideos(reply: LoadReply)
      requires Valid() && videos == []
      modifies this
      ensures Valid() && !loading
      ensures videos == match reply
                        case LoadError => old(videos)
                        case Loaded(None) => []
                        case Loaded(Some(rows)) => rows
      ensures currentVideoIndex == old(currentVideoIndex) == 0
      ensures isMuted == old(isMuted) && videoPaused == old(videoPaused)
    {
      match reply {
        case LoadError =>
        case Loaded(data) =>
          videos := if data.Some? then data.value else [];
      }
      loading := false;
    }

    method HandlePrevVideo()
      requires Valid()
      modifies this
      ensures Valid()
      ensures currentVideoIndex == Prev(old(currentVideoIndex), |videos|)
      ensures videos == old(videos) && loading == old(loading)
      ensures isMuted == old(isMuted) && videoPaused == old(videoPaused)
    {
      if currentVideoIndex > 0 {
        currentVideoIndex := currentVideoIndex - 1;
      }
    }

    method HandleNextVideo()
      requires Valid()
      modifies this
      ensures Valid()
      ensures currentVideoIndex == Next(old(currentVideoIndex), |videos|)
      ensures videos == old(videos) && loading == old(loading)
      ensures isMuted == old(isMuted) && videoPaused == old(videoPaused)
    {
      if currentVideoIndex < |videos| - 1 {
        currentVideoIndex := currentVideoIndex + 1;
      }
    }

    method HandleWheel(deltaY: int)
      requires Valid()
      modifies this
      ensures Valid()
      ensures currentVideoIndex == Wheel(old(currentVideoIndex), |videos|, deltaY)
      ensures videos == old(videos) && loading == old(loading)
      ensures isMuted == old(isMuted) && videoPaused == old(videoPaused)
    {
      if deltaY > 0 && currentVideoIndex < |videos| - 1 {
        currentVideoIndex := currentVideoIndex + 1;
      } else if deltaY < 0 && currentVideoIndex > 0 {
        currentVideoIndex := currentVideoIndex - 1;
      }
    }

    /**
     * `handleKeyDown`: the arrows move the cursor; the space bar plays or
     * pauses the current video when the element exists.
     */
    method HandleKeyDown(key: string, hasVideoElement: bool)
      requires Valid()
      modifies this
      ensures Valid()
      ensures currentVideoIndex == Key(old(currentVideoIndex), |videos|, key)
      ensures videoPaused == if KeyActionOf(key) == TogglePlayback && hasVideoElement
                             then !old(videoPaused) else old(videoPaused)
      ensures videos == old(videos) && loading == old(loading) && isMuted == old(isMuted)
    {
      if key == "ArrowUp" {
        HandlePrevVideo();
      } else if key == "ArrowDown" {
        HandleNextVideo();
      } else if key == " " {
        if hasVideoElement {
          videoPaused := !videoPaused;
        }
      }
    }

    /** The mute button flips the mute flag. */
    method ToggleMute()
      modifies this
      ensures isMuted == !old(isMuted)
      ensures videos == old(videos) && currentVideoIndex == old(currentVideoIndex)
      ensures loading == old(loading) && videoPaused == old(videoPaused)
    {
      isMuted := !isMuted;
    }
  }
}
