/**
 * The text renderer's cache of rendered inscriptions (text_renderer.h, text_renderer.cpp): a
 * map from a text to its texture and the frame it was last used in. `OnUpdate` counts frames
 * from -1 and every 30th frame `Collect` drops the inscriptions unused for 60 frames or more.
 * Textures are opaque handles; creating one is left to the caller.
 */
module Inscriptions {
  import opened Bytes

  const FramesPerCollect: int := 30
  const FramesToRetire: int := 60

  /** An SDL texture, known only by its handle. */
  type Texture = nat

  datatype Inscription = Inscription(texture: Texture, renderedFrameIdx: int)

  /** The state of the cache: the current frame and the inscriptions. */
  datatype Cache = Cache(frameIdx: int, inscriptions: map<Text, Inscription>)

  /** The frame counter never goes below its start and no stamp is ahead of it. */
  ghost predicate Consistent(c: Cache)
  {
    c.frameIdx >= -1 && forall t :: t in c.inscriptions ==> c.inscriptions[t].renderedFrameIdx <= c.frameIdx
  }

  /** An inscription `Collect` keeps at frame `frameIdx`. */
  predicate Fresh(i: Inscription, frameIdx: int)
  {
    frameIdx - i.renderedFrameIdx < FramesToRetire
  }

  /** `Collect`: the inscriptions used within the last 60 frames, unchanged. */
  function Collected(inscriptions: map<Text, Inscription>, frameIdx: int): (r: map<Text, Inscription>)
    ensures forall t :: t in r <==> t in inscriptions && Fresh(inscriptions[t], frameIdx)
    ensures forall t :: t in r ==> r[t] == inscriptions[t]
  {
    map t | t in inscriptions && Fresh(inscriptions[t], frameIdx) :: inscriptions[t]
  }

  /** `OnUpdate`: the next frame, collected if it is a multiple of 30. */
  function Update(c: Cache): (r: Cache)
    requires c.frameIdx >= -1
    ensures r.frameIdx == c.frameIdx + 1
    ensures r.inscriptions == if r.frameIdx % FramesPerCollect == 0 then Collected(c.inscriptions, r.frameIdx) else c.inscriptions
  {
    var frameIdx := c.frameIdx + 1;
    Cache(frameIdx, if frameIdx % FramesPerCollect == 0 then Collected(c.inscriptions, frameIdx) else c.inscriptions)
  }

  /** `j` calls of `OnUpdate`. */
  function Updates(c: Cache, j: nat): (r: Cache)
    requires c.frameIdx >= -1
    ensures r.frameIdx == c.frameIdx + j
  {
    if j == 0 then c else Update(Updates(c, j - 1))
  }

  /**
   * `PrepareText(text)`: the inscription of `text`, with `newTexture` if there was none,
   * stamped with the current frame; every other inscription is left as it was.
   */
  function Prepare(c: Cache, text: Text, newTexture: Texture): (r: Cache)
    ensures r.frameIdx == c.frameIdx
    ensures r.inscriptions.Keys == c.inscriptions.Keys + {text}
    ensures r.inscriptions[text] == Inscription(if text in c.inscriptions then c.inscriptions[text].texture else newTexture, c.frameIdx)
    ensures forall t :: t in c.inscriptions && t != text ==> r.inscriptions[t] == c.inscriptions[t]
  {
    var texture := if text in c.inscriptions then c.inscriptions[text].texture else newTexture;
    Cache(c.frameIdx, c.inscriptions[text := Inscription(texture, c.frameIdx)])
  }

  /** A frame at which `OnUpdate` collects and the inscription stamped `stamp` is too old. */
  predicate Evicts(f: int, stamp: int)
  {
    f % FramesPerCollect == 0 && f - stamp >= FramesToRetire
  }

  /**
   * Over `j` frames an inscription that is not used again stays, unchanged, exactly until a
   * frame that collects finds it 60 frames old or more.
   */
  lemma {:induction false} Retention(c: Cache, t: Text, j: nat)
    requires c.frameIdx >= -1 && t in c.inscriptions
    ensures var r, stamp := Updates(c, j), c.inscriptions[t].renderedFrameIdx;
      (t in r.inscriptions <==> !exists f :: c.frameIdx < f <= c.frameIdx + j && Evicts(f, stamp)) &&
      (t in r.inscriptions ==> r.inscriptions[t] == c.inscriptions[t])
  {
    if j > 0 {
      Retention(c, t, j - 1);
      var stamp, f := c.inscriptions[t].renderedFrameIdx, c.frameIdx + j;
      if t in Updates(c, j).inscriptions {
        assert !Evicts(f, stamp);
      } else if t in Updates(c, j - 1).inscriptions {
        assert Evicts(f, stamp);
      }
    }
  }

  /** An inscription is kept for the 59 frames after the one it was last used in. */
  lemma KeptForSixtyFrames(c: Cache, t: Text, j: nat)
    requires c.frameIdx >= -1 && t in c.inscriptions
    requires c.frameIdx + j - c.inscriptions[t].renderedFrameIdx < FramesToRetire
    ensures t in Updates(c, j).inscriptions && Updates(c, j).inscriptions[t] == c.inscriptions[t]
  {
    Retention(c, t, j);
  }

  /**
   * An inscription unused for 89 frames is gone once 30 more frames have been counted, since
   * one of them collects it.
   */
  lemma GoneAfterNinetyFrames(c: Cache, t: Text, j: nat)
    requires c.frameIdx >= -1 && t in c.inscriptions && j >= FramesPerCollect
    requires c.frameIdx + j - c.inscriptions[t].renderedFrameIdx >= FramesToRetire + FramesPerCollect - 1
    ensures t !in Updates(c, j).inscriptions
  {
    var stamp := c.inscriptions[t].renderedFrameIdx;
    var low := if c.frameIdx + 1 < stamp + FramesToRetire then stamp + FramesToRetire else c.frameIdx + 1;
    var f := low + (FramesPerCollect - low % FramesPerCollect) % FramesPerCollect;
    assert c.frameIdx < f <= c.frameIdx + j && Evicts(f, stamp);
    Retention(c, t, j);
  }

  /** A text just prepared is still cached, with its texture, for the next 59 frames. */
  lemma PreparedStays(c: Cache, text: Text, newTexture: Texture, j: nat)
    requires c.frameIdx >= -1 && j < FramesToRetire
    ensures var r := Updates(Prepare(c, text, newTexture), j);
      text in r.inscriptions && r.inscriptions[text].texture == Prepare(c, text, newTexture).inscriptions[text].texture
  {
    KeptForSixtyFrames(Prepare(c, text, newTexture), text, j);
  }

  /** `OnUpdate` and `PrepareText` keep the frame counter and the stamps consistent. */
  lemma UpdateConsistent(c: Cache, text: Text, newTexture: Texture)
    requires Consistent(c)
    ensures Consistent(Update(c)) && Consistent(Prepare(c, text, newTexture))
  {
  }

  class TextRenderer {
    var frameIdx: int
    var inscriptions: map<Text, Inscription>

    function State(): Cache
      reads this
    {
      Cache(frameIdx, inscriptions)
    }

    ghost predicate Valid()
      reads this
    {
      Consistent(State())
    }

    constructor ()
      ensures Valid() && frameIdx == -1 && inscriptions == map[]
    {
      frameIdx := -1;
      inscriptions := map[];
    }

    /** Finds or makes the inscription of `text` and stamps it with the current frame. */
    method PrepareText(text: Text, newTexture: Texture) returns (texture: Texture)
      requires Valid() && text != []
      modifies this
      ensures Valid() && State() == Prepare(old(State()), text, newTexture)
      ensures texture == inscriptions[text].texture
    {
      if text !in inscriptions {
        inscriptions := inscriptions[text := Inscription(newTexture, 0)];
      }
      inscriptions := inscriptions[text := inscriptions[text].(renderedFrameIdx := frameIdx)];
      texture := inscriptions[text].texture;
    }

    /** Goes to the next frame and collects every 30th one. */
    method OnUpdate()
      requires Valid()
      modifies this
      ensures Valid() && State() == Update(old(State()))
    {
      frameIdx := frameIdx + 1;
      if frameIdx % FramesPerCollect == 0 {
        Collect();
      }
    }

    /**
     * Lists the texts of the inscriptions unused for 60 frames or more, then erases them. The
     * map is walked in no particular order.
     */
    method Collect()
      requires Valid()
      modifies this
      ensures Valid() && frameIdx == old(frameIdx) && inscriptions == Collected(old(inscriptions), frameIdx)
    {
      var textsToRemove: seq<Text> := [];
      var pending := inscriptions.Keys;
      while pending != {}
        invariant inscriptions == old(inscriptions) && frameIdx == old(frameIdx)
        invariant pending <= inscriptions.Keys
        invariant forall t :: t in textsToRemove <==> t in inscriptions && t !in pending && !Fresh(inscriptions[t], frameIdx)
        decreases pending
      {
        var text :| text in pending;
        if !Fresh(inscriptions[text], frameIdx) {
          textsToRemove := textsToRemove + [text];
        }
        pending := pending - {text};
      }
      ghost var before := inscriptions;
      var i := 0;
      while i < |textsToRemove|
        invariant 0 <= i <= |textsToRemove| && frameIdx == old(frameIdx)
        invariant inscriptions == map t | t in before && t !in textsToRemove[..i] :: before[t]
      {
        inscriptions := inscriptions - {textsToRemove[i]};
        i := i + 1;
      }
      assert textsToRemove[..i] == textsToRemove;
      assert inscriptions.Keys == Collected(before, frameIdx).Keys;
    }
  }
}
