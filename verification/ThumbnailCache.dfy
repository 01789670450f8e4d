/** The thumbnail cache as the mutable object the UI holds, each method proved against Media. */
module ThumbnailCaches {
  import opened Prelude
  import Media

  class ThumbnailCache {
    const maxBytes: int
    const decode: Media.Decoder
    var entries: map<string, Media.Entry>
    var lru: seq<string>
    var total: int

    ghost function View(): Media.Cache
      reads this
    {
      Media.Cache(maxBytes, entries, lru, total)
    }

    ghost predicate Valid()
      reads this
    {
      Media.Inv(View())
    }

    constructor (maxBytes: int, decode: Media.Decoder)
      ensures this.maxBytes == maxBytes && this.decode == decode
      ensures View() == Media.New(maxBytes) && Valid()
    {
      this.maxBytes := maxBytes;
      this.decode := decode;
      entries, lru, total := map[], [], 0;
    }

    /** A cached image is returned without touching the hook; a failed decode changes nothing. */
    method Decode(path: string) returns (r: Result<Media.Image>)
      requires Valid()
      modifies this
      ensures Valid()
      ensures View() == Media.Decode(old(View()), path, decode(path))
      ensures path in old(entries) ==> r == Ok(old(entries)[path].img)
      ensures path !in old(entries) && decode(path).Decoded? ==> r == Ok(decode(path).img)
      ensures path !in old(entries) && decode(path).Unreadable? ==> r.Err? && View() == old(View())
      ensures r.Ok? ==> path in entries && entries[path].refcount > 0 && entries[path].img == r.value
    {
      hide Media.Inv;
      Media.DecodeKeepsInv(View(), path, decode(path));
      if path in entries || decode(path).Decoded? {
        Media.DecodedIsPinned(View(), path, decode(path));
      }
      if path in entries {
        var e := entries[path];
        entries := entries[path := e.(refcount := e.refcount + 1)];
        RemoveFromLRU(path);
        return Ok(e.img);
      }
      match decode(path)
      case Unreadable(reason) =>
        return Err(reason);
      case Decoded(img, bytes) =>
        entries := entries[path := Media.Entry(img, bytes, 1)];
        total := total + bytes;
        EvictIfOver();
        return Ok(img);
    }

    /** Releasing an unknown path is a no-op. */
    method Release(path: string)
      requires Valid()
      modifies this
      ensures Valid()
      ensures View() == Media.Release(old(View()), path)
    {
      Media.ReleaseKeepsInv(View(), path);
      if path !in entries {
        return;
      }
      var e := entries[path];
      if e.refcount > 0 {
        e := e.(refcount := e.refcount - 1);
      }
      entries := entries[path := e];
      if e.refcount == 0 {
        RemoveFromLRU(path);
        lru := lru + [path];
        EvictIfOver();
      }
    }

    method RemoveFromLRU(path: string)
      modifies this`lru
      ensures lru == Media.RemoveFromLRU(old(lru), path)
    {
      var i := 0;
      while i < |lru|
        invariant 0 <= i <= |lru| && lru == old(lru)
        invariant path !in lru[..i]
      {
        if lru[i] == path {
          Media.RemoveFirst(lru, path, i);
          lru := lru[..i] + lru[i + 1..];
          return;
        }
        i := i + 1;
      }
      assert lru == lru[..i];
      Media.RemoveAbsent(lru, path);
    }

    method EvictIfOver()
      modifies this
      ensures View() == Media.EvictIfOver(old(View()))
    {
      if maxBytes <= 0 {
        return;
      }
      while total > maxBytes && |lru| > 0
        invariant Media.EvictIfOver(View()) == Media.EvictIfOver(old(View()))
        decreases |lru|
      {
        var victim := lru[0];
        lru := lru[1..];
        if victim in entries {
          total := total - entries[victim].bytes;
          entries := entries - {victim};
        }
      }
    }

    method Stats() returns (count: nat, bytes: int)
      requires Valid()
      ensures count == |entries| && bytes == Sum(Media.Sizes(entries))
    {
      return |entries|, total;
    }
  }
}
