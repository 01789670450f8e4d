/** The tracker and the view's thumbnail lookup as the mutable objects of the frame loop. */
module Trackers {
  import opened Prelude
  import Media
  import V = Visibility
  import opened ThumbnailCaches

  class Tracker {
    const cache: ThumbnailCache
    var visible: set<string>
    // running totals of the counts SetVisible and Clear report
    ghost var decodedSoFar: int
    ghost var releasedSoFar: int

    ghost predicate Valid()
      reads this, cache
    {
      && V.Balanced(cache.View(), cache.decode, visible)
      && decodedSoFar - releasedSoFar == |visible|
    }

    /** The bound the thumbnail budget is there for. */
    ghost predicate Bounded()
      reads this, cache
    {
      cache.maxBytes > 0 ==> cache.total <= Max(cache.maxBytes, Sum(V.VisibleSizes(cache.decode, visible)))
    }

    /** Nothing is visible yet, so the pairing holds from the start if nobody else has pinned a path. */
    constructor (cache: ThumbnailCache)
      ensures this.cache == cache && visible == {} && decodedSoFar == releasedSoFar == 0
      ensures V.Balanced(cache.View(), cache.decode, {}) ==> Valid() && Bounded()
    {
      if V.Balanced(cache.View(), cache.decode, {}) && cache.maxBytes > 0 {
        V.MemoryBound(cache.View(), cache.decode, {});
      }
      this.cache := cache;
      visible := {};
      decodedSoFar, releasedSoFar := 0, 0;
    }

    /**
     * Reconciles the cache with what was just drawn: one Release per path that left, one
     * Decode per path that appeared, none for a path that stayed.
     */
    method SetVisible(paths: seq<string>)
        returns (decoded: nat, released: nat, ghost departures: seq<string>, ghost arrivals: seq<string>)
      requires Valid()
      modifies this, cache
      ensures Valid() && Bounded()
      ensures visible == V.Wanted(paths) && forall p :: p in visible <==> p in paths && p != ""
      ensures decoded == |visible - old(visible)| && released == |old(visible) - visible|
      ensures decodedSoFar == old(decodedSoFar) + decoded && releasedSoFar == old(releasedSoFar) + released
      ensures Enumerates(departures, old(visible) - visible) && Enumerates(arrivals, visible - old(visible))
      ensures cache.View() == V.DecodeAll(V.ReleaseAll(old(cache.View()), departures), cache.decode, arrivals)
    {
      var next := Deduplicate(paths);
      released, departures := ReleaseEach(visible - next);
      decoded, arrivals := DecodeEach(visible * next, next - visible);
      assert old(visible) * next + (next - old(visible)) == next;
      V.ReconcileKeepsBalance(old(cache.View()), cache.decode, old(visible), next, departures, arrivals);
      EnumerationLength(departures, old(visible) - next);
      EnumerationLength(arrivals, next - old(visible));
      visible := next;
      decodedSoFar, releasedSoFar := decodedSoFar + decoded, releasedSoFar + released;
      if cache.maxBytes > 0 {
        V.MemoryBound(cache.View(), cache.decode, visible);
      }
    }

    method Clear() returns (released: nat, ghost departures: seq<string>)
      requires Valid()
      modifies this, cache
      ensures Valid() && Bounded()
      ensures visible == {} && released == |old(visible)|
      ensures releasedSoFar == old(releasedSoFar) + released && decodedSoFar == old(decodedSoFar)
      ensures Enumerates(departures, old(visible))
      ensures cache.View() == V.ReleaseAll(old(cache.View()), departures)
    {
      released, departures := ReleaseEach(visible);
      assert old(visible) - old(visible) == {};
      EnumerationLength(departures, old(visible));
      visible := {};
      releasedSoFar := releasedSoFar + released;
      if cache.maxBytes > 0 {
        V.MemoryBound(cache.View(), cache.decode, visible);
      }
    }

    method Deduplicate(paths: seq<string>) returns (next: set<string>)
      ensures next == V.Wanted(paths)
    {
      next := {};
      for i := 0 to |paths|
        invariant next == V.Wanted(paths[..i])
      {
        assert paths[..i + 1] == paths[..i] + [paths[i]];
        if paths[i] != "" {
          next := next + {paths[i]};
        }
      }
      assert paths == paths[..|paths|];
    }

    method ReleaseEach(leaving: set<string>) returns (released: nat, ghost order: seq<string>)
      requires V.Balanced(cache.View(), cache.decode, visible) && leaving <= visible
      modifies cache
      ensures Enumerates(order, leaving) && released == |order|
      ensures cache.View() == V.ReleaseAll(old(cache.View()), order)
      ensures V.Balanced(cache.View(), cache.decode, visible - leaving)
    {
      released, order := 0, [];
      var rest := leaving;
      assert visible - (leaving - rest) == visible;
      while rest != {}
        invariant rest <= leaving && released == |order| && Enumerates(order, leaving - rest)
        invariant cache.View() == V.ReleaseAll(old(cache.View()), order)
        invariant V.Balanced(cache.View(), cache.decode, visible - (leaving - rest))
        decreases rest
      {
        var p :| p in rest;
        V.ReleaseOne(cache.View(), cache.decode, visible - (leaving - rest), p);
        cache.Release(p);
        assert (order + [p])[..|order|] == order;
        assert visible - (leaving - (rest - {p})) == visible - (leaving - rest) - {p};
        order := order + [p];
        rest := rest - {p};
        released := released + 1;
      }
      assert leaving - rest == leaving;
    }

    method DecodeEach(shown: set<string>, arriving: set<string>) returns (decoded: nat, ghost order: seq<string>)
      requires V.Balanced(cache.View(), cache.decode, shown) && shown !! arriving
      modifies cache
      ensures Enumerates(order, arriving) && decoded == |order|
      ensures cache.View() == V.DecodeAll(old(cache.View()), cache.decode, order)
      ensures V.Balanced(cache.View(), cache.decode, shown + arriving)
    {
      decoded, order := 0, [];
      var rest := arriving;
      assert shown + (arriving - rest) == shown;
      while rest != {}
        invariant rest <= arriving && decoded == |order| && Enumerates(order, arriving - rest)
        invariant cache.View() == V.DecodeAll(old(cache.View()), cache.decode, order)
        invariant V.Balanced(cache.View(), cache.decode, shown + (arriving - rest))
        decreases rest
      {
        var p :| p in rest;
        V.DecodeOne(cache.View(), cache.decode, shown + (arriving - rest), p);
        var _ := cache.Decode(p);
        assert (order + [p])[..|order|] == order;
        assert shown + (arriving - (rest - {p})) == shown + (arriving - rest) + {p};
        order := order + [p];
        rest := rest - {p};
        decoded := decoded + 1;
      }
      assert arriving - rest == arriving;
    }
  }

  /** The thumbnail of a row: the image its path decodes to, none for plain text or an unreadable file. */
  predicate ShowsImage(thumb: Option<Media.Image>, dec: Media.Decoder, path: string) {
    && (path != "" && dec(path).Decoded? ==> thumb == Some(dec(path).img))
    && (path == "" || dec(path).Unreadable? ==> thumb == None)
  }

  lemma ImageShown(thumb: Option<Media.Image>, dec: Media.Decoder, path: string)
    requires path != "" && dec(path).Decoded? ==> thumb == Some(dec(path).img)
    requires path == "" || dec(path).Unreadable? ==> thumb == None
    ensures ShowsImage(thumb, dec, path)
  {}

  /** The part of the view that draws message rows. */
  class View {
    const imgCache: ThumbnailCache
    const imgTracker: Tracker
    var visiblePaths: seq<string>

    ghost predicate Valid()
      reads this, imgTracker, imgCache, imgTracker.cache
    {
      imgTracker.cache == imgCache && imgTracker.Valid()
    }

    constructor (maxBytes: int, decode: Media.Decoder)
      ensures Valid() && imgTracker.visible == {} && visiblePaths == []
      ensures imgCache.maxBytes == maxBytes && imgCache.decode == decode
      ensures fresh(imgTracker) && fresh(imgCache)
    {
      var cache := new ThumbnailCache(maxBytes, decode);
      imgCache := cache;
      imgTracker := new Tracker(cache);
      visiblePaths := [];
    }

    /**
     * The lookup while a bubble is drawn: Decode balanced by an immediate Release, so the
     * counts the tracker relies on are untouched.
     */
    method ThumbnailFor(path: string) returns (img: Option<Media.Image>)
      requires Valid()
      modifies imgCache
      ensures Valid() && imgTracker.Bounded()
      ensures imgCache.View() == V.Thumbnail(old(imgCache.View()), imgCache.decode, path)
      ensures path != "" && imgCache.decode(path).Decoded? ==> img == Some(imgCache.decode(path).img)
      ensures path == "" || imgCache.decode(path).Unreadable? ==> img == None
    {
      V.ThumbnailKeepsBalance(imgCache.View(), imgCache.decode, imgTracker.visible, path);
      if path == "" {
        img := None;
      } else {
        var r := imgCache.Decode(path);
        match r {
          case Err(_) => img := None;
          case Ok(i) =>
            imgCache.Release(path);
            img := Some(i);
        }
      }
      if imgCache.maxBytes > 0 {
        V.MemoryBound(imgCache.View(), imgCache.decode, imgTracker.visible);
      }
    }

    /**
     * One frame: the rows are drawn with their thumbnails, then the tracker is told what was
     * on screen. `drawn` holds the media path of each row the list drew, empty for plain text.
     * With no chat open nothing is drawn and the tracker is not told: what the last chat
     * showed stays visible to it, and pinned.
     */
    method LayoutMessages(selected: string, drawn: seq<string>) returns (thumbs: seq<Option<Media.Image>>)
      requires Valid()
      modifies this, imgTracker, imgCache
      ensures Valid() && imgTracker.Bounded()
      ensures selected == "" ==>
                imgTracker.visible == old(imgTracker.visible) && imgCache.View() == old(imgCache.View()) && thumbs == []
      ensures selected != "" ==> imgTracker.visible == V.Wanted(drawn) && |thumbs| == |drawn|
      ensures forall p :: selected != "" ==> (p in imgTracker.visible <==> p in drawn && p != "")
      ensures |thumbs| <= |drawn|
      ensures forall i :: 0 <= i < |thumbs| && drawn[i] != "" && imgCache.decode(drawn[i]).Decoded? ==>
                thumbs[i] == Some(imgCache.decode(drawn[i]).img)
      ensures forall i :: 0 <= i < |thumbs| && (drawn[i] == "" || imgCache.decode(drawn[i]).Unreadable?) ==>
                thumbs[i] == None
    {
      if selected == "" {
        if imgCache.maxBytes > 0 {
          V.MemoryBound(imgCache.View(), imgCache.decode, imgTracker.visible);
        }
        return [];
      }
      thumbs := DrawRows(drawn);
      var _, _, _, _ := imgTracker.SetVisible(visiblePaths);
    }

    /** The list callback, row by row; the paths it meets are remembered for the tracker. */
    method DrawRows(drawn: seq<string>) returns (thumbs: seq<Option<Media.Image>>)
      requires Valid()
      modifies this, imgCache
      ensures Valid() && V.Wanted(visiblePaths) == V.Wanted(drawn)
      ensures |thumbs| == |drawn|
      ensures forall j :: 0 <= j < |drawn| ==> ShowsImage(thumbs[j], imgCache.decode, drawn[j])
    {
      visiblePaths, thumbs := [], [];
      hide V.Balanced, V.Wanted, V.Thumbnail, ShowsImage;
      assert V.Wanted(drawn[..0]) == V.Wanted(visiblePaths);
      for i := 0 to |drawn|
        invariant Valid()
        invariant V.Wanted(visiblePaths) == V.Wanted(drawn[..i])
        invariant |thumbs| == i
        invariant forall j :: 0 <= j < i ==> ShowsImage(thumbs[j], imgCache.decode, drawn[j])
      {
        assert drawn[..i + 1] == drawn[..i] + [drawn[i]];
        V.WantedAppend(drawn[..i], drawn[i]);
        V.WantedAppend(visiblePaths, drawn[i]);
        var thumb: Option<Media.Image> := None;
        if drawn[i] != "" {
          visiblePaths := visiblePaths + [drawn[i]];
          thumb := ThumbnailFor(drawn[i]);
        }
        ImageShown(thumb, imgCache.decode, drawn[i]);
        thumbs := thumbs + [thumb];
      }
      assert drawn[..|drawn|] == drawn;
    }
  }
}
