/** The in-memory cache of `VideoPreview`: one insertion-ordered dictionary
    (`ffmpeg_cache`) shared by the ffmpeg availability flag, cached
    durations and the information dictionaries of `get_video_info`, which
    cuts it back to its most recent entries once it grows too large. */
module PreviewCache {
  import opened Common
  import Paths

  /** `MAX_CACHE_SIZE`. */
  const MaxCacheSize: nat := 50
  /** `CACHE_EVICTION_COUNT`: how many of the newest entries survive a cut. */
  const CacheEvictionCount: nat := 25
  /** The key under which `check_ffmpeg` caches its answer. */
  const FfmpegKey: string := "ffmpeg_available"

  /** The kinds of value the dictionary holds. */
  datatype CacheEntry =
    | FfmpegFlag(available: bool)
    | Duration(seconds: real)
    | Info(fields: map<string, string>)

  /** Python's truth value of a cached entry. */
  predicate Truthy(e: CacheEntry)
  {
    match e
    case FfmpegFlag(b) => b
    case Duration(s) => s != 0.0
    case Info(m) => |m| != 0
  }

  /** Key order of a dict after `d[k] = v`: a new key goes last, an
      existing key keeps its place. */
  function Put(keys: seq<string>, k: string): seq<string>
  {
    if k in keys then keys else keys + [k]
  }

  /** Key order after the cut of `get_video_info`: when there are more than
      `MaxCacheSize` keys, all but the last `CacheEvictionCount` go. */
  function Trimmed(keys: seq<string>): seq<string>
  {
    if |keys| > MaxCacheSize then keys[|keys| - CacheEvictionCount..] else keys
  }

  /** Key order just before the cut, after a miss on `video`: `check_ffmpeg`
      may have added its key, then the video's key is set. */
  function GrownKeys(keys: seq<string>, video: string): seq<string>
  {
    Put(Put(keys, FfmpegKey), video)
  }

  /** The dictionary stored for a video on a miss: what `stat` and
      `ffprobe` produced, plus its name and its path. */
  function InfoFields(video: string, computed: map<string, string>): (m: map<string, string>)
    ensures m.Keys == computed.Keys + {"name", "path"}
    ensures "name" in m && "path" in m && m["path"] == video
    ensures m["name"] == Paths.BaseName(video)
    ensures forall k :: k in computed && k != "name" && k != "path" ==> k in m && m[k] == computed[k]
  {
    computed["name" := Paths.BaseName(video)]["path" := video]
  }

  /** Setting a key keeps the keys duplicate-free and holds the new key. */
  lemma PutNoDup(keys: seq<string>, k: string)
    requires NoDup(keys)
    ensures NoDup(Put(keys, k)) && Elements(Put(keys, k)) == Elements(keys) + {k}
  {
  }

  /** After a miss the video's key is the newest one. */
  lemma {:induction false} GrownEndsWithVideo(keys: seq<string>, video: string)
    requires video !in keys
    ensures |GrownKeys(keys, video)| > 0 && GrownKeys(keys, video)[|GrownKeys(keys, video)| - 1] == video
    ensures |GrownKeys(keys, video)| <= |keys| + 2
  {
  }

  /** What a miss leaves: at most `MaxCacheSize` keys, the video's key among
      them; nothing removed when the grown cache is within the bound;
      otherwise exactly its last `CacheEvictionCount` keys, in order. */
  lemma MissOutcome(keys: seq<string>, video: string)
    requires video !in keys
    ensures var grown := GrownKeys(keys, video);
      && |Trimmed(grown)| <= MaxCacheSize
      && video in Trimmed(grown)
      && (|grown| <= MaxCacheSize ==> Trimmed(grown) == grown)
      && (|grown| > MaxCacheSize ==> |Trimmed(grown)| == CacheEvictionCount && Trimmed(grown) == grown[|grown| - CacheEvictionCount..])
  {
    GrownEndsWithVideo(keys, video);
    var grown := GrownKeys(keys, video);
    if |grown| > MaxCacheSize {
      assert grown[|grown| - 1] == Trimmed(grown)[CacheEvictionCount - 1];
    }
  }

  /** Deleting the oldest key of a duplicate-free key order leaves the
      other keys, still duplicate-free, in their order. */
  lemma DropOldest(keys: seq<string>)
    requires |keys| > 0 && NoDup(keys)
    ensures NoDup(keys[1..]) && Elements(keys[1..]) == Elements(keys) - {keys[0]}
  {
  }

  class VideoPreview {
    /** The keys of `ffmpeg_cache` in insertion order. */
    var keys: seq<string>
    /** The entries of `ffmpeg_cache`. */
    var entries: map<string, CacheEntry>

    /** The two fields describe one insertion-ordered dictionary. */
    predicate Valid()
      reads this
    {
      NoDup(keys) && Elements(keys) == entries.Keys
    }

    /** A new preview helper starts with an empty cache. */
    constructor ()
      ensures Valid() && keys == [] && entries == map[]
    {
      keys := [];
      entries := map[];
    }

    /** `check_ffmpeg`: the cached answer when there is one, otherwise the
        outcome of running `ffmpeg -version` (`found`), which is cached. */
    method CheckFfmpeg(found: bool) returns (available: bool)
      requires Valid()
      modifies this
      ensures Valid()
      ensures FfmpegKey in old(entries) ==>
        available == Truthy(old(entries)[FfmpegKey]) && keys == old(keys) && entries == old(entries)
      ensures FfmpegKey !in old(entries) ==>
        && available == found
        && keys == old(keys) + [FfmpegKey]
        && entries == old(entries)[FfmpegKey := FfmpegFlag(found)]
    {
      if FfmpegKey in entries {
        return Truthy(entries[FfmpegKey]);
      }
      PutNoDup(keys, FfmpegKey);
      entries := entries[FfmpegKey := FfmpegFlag(found)];
      keys := Put(keys, FfmpegKey);
      available := found;
    }

    /** The cache part of `get_video_info(video)`. `computed` is what the
        `stat` and `ffprobe` calls produced and `ffmpegFound` the answer
        `check_ffmpeg` gets if it has to run ffmpeg. A hit returns the
        stored entry and changes nothing. A miss stores the new information
        under the video's key and cuts the cache back to its newest
        `CacheEvictionCount` entries when it holds more than `MaxCacheSize`. */
    method GetVideoInfo(video: string, computed: map<string, string>, ffmpegFound: bool)
      returns (info: CacheEntry)
      requires Valid()
      modifies this
      ensures Valid()
      ensures video in old(entries) ==>
        info == old(entries)[video] && keys == old(keys) && entries == old(entries)
      ensures video !in old(entries) ==>
        && info == Info(InfoFields(video, computed))
        && keys == Trimmed(GrownKeys(old(keys), video))
        && video in entries && entries[video] == info
        && (FfmpegKey != video && FfmpegKey in entries ==>
              entries[FfmpegKey] == if FfmpegKey in old(entries) then old(entries)[FfmpegKey] else FfmpegFlag(ffmpegFound))
        && (forall k :: k in entries && k != video && k != FfmpegKey ==> k in old(entries) && entries[k] == old(entries)[k])
    {
      if video in entries {
        return entries[video];
      }
      var _ := CheckFfmpeg(ffmpegFound);
      info := Info(InfoFields(video, computed));
      Store(video, info);
      MissOutcome(old(keys), video);
    }

    /** The caching step at the end of `get_video_info`: the entry is set
        under `key`, then the cache is cut back if it has grown too large. */
    method Store(key: string, entry: CacheEntry)
      requires Valid()
      modifies this
      ensures Valid()
      ensures keys == Trimmed(Put(old(keys), key))
      ensures key in keys ==> key in entries && entries[key] == entry
      ensures forall k :: k in entries && k != key ==> k in old(entries) && entries[k] == old(entries)[k]
    {
      PutNoDup(keys, key);
      entries := entries[key := entry];
      keys := Put(keys, key);
      if |keys| > MaxCacheSize {
        EvictOldest();
      }
    }

    /** The eviction loop of `get_video_info`: every key but the newest
        `CacheEvictionCount` is deleted, oldest first. */
    method EvictOldest()
      requires Valid() && |keys| > MaxCacheSize
      modifies this
      ensures Valid()
      ensures keys == Trimmed(old(keys))
      ensures forall k :: k in entries ==> k in old(entries) && entries[k] == old(entries)[k]
    {
      var toRemove := keys[..|keys| - CacheEvictionCount];
      var i := 0;
      while i < |toRemove|
        invariant 0 <= i <= |toRemove|
        invariant keys == old(keys)[i..]
        invariant Valid()
        invariant forall k :: k in entries ==> k in old(entries) && entries[k] == old(entries)[k]
      {
        var k := toRemove[i];
        assert k == keys[0];
        DropOldest(keys);
        assert keys[1..] == old(keys)[i + 1..];
        entries := entries - {k};
        keys := keys[1..];
        i := i + 1;
      }
    }
  }
}
