/** The tile-slot pool of src/tilecache.ts: a 4096 x 4096 render target cut into 16 x 16 slots of
    256 x 256 pixels, one `Tile` per slot. A slot is free, its texture in flight, downloaded, or
    rendered into its rectangle of the atlas; the texture loader's callbacks are methods the
    environment calls in any order. */
module TileCache {
  import opened Wrappers
  import opened Powers

  const TilecachePixelWidth: int := 4096
  const TileWidth: int := 256
  /** Slots per side of the atlas, 4096 / 256 (written as a literal so the verifier need not
      divide). */
  const TilecacheWidth: int := 16
  /** Slots in the pool, 16 * 16. */
  const SlotCount: int := 256

  /** The `${x}|${y}|${size}` key of a tile; the empty key a tile starts with is `NoKey`. */
  datatype TileKey = NoKey | Key(x: int, y: int, size: int)

  /** A loaded texture: its asset and whether `dispose` was called on it. */
  datatype Texture = Texture(url: string, disposed: bool)

  /** What one slot of the atlas shows: nothing drawn yet is absent from the map; a draw with no
      texture bound paints the material's plain colour, `Untextured`. */
  datatype Paint = Untextured | Image(url: string)

  /** A texture load that was started and whose callback has not run yet. */
  datatype Load = Load(tile: Tile, url: string)

  datatype Rect = Rect(left: int, bottom: int, width: int, height: int)

  datatype TileError = TextureNotDisposed

  /** `PoolEmpty`: `freeTiles.pop()` gave `undefined`, on which `download` throws.
      `TextureMissing`: `dispose` was called on a null texture. */
  datatype CacheError = PoolEmpty | TextureMissing

  /** The asset a load fetches, given the `Math.random()` value drawn for it. */
  function AssetUrl(coin: real): string {
    if coin < 0.5 then "assets/test.png" else "assets/terrain.png"
  }

  class Tile {
    const x: int
    const y: int
    var key: TileKey
    var texture: Option<Texture>

    constructor (x: int, y: int)
      ensures this.x == x && this.y == y && key == NoKey && texture == None
    {
      this.x, this.y := x, y;
      key, texture := NoKey, None;
    }

    /** `download`: records the key, then refuses (the source throws) when a texture is still
        attached; otherwise starts loading the asset chosen by `coin`. */
    method Download(key: TileKey, coin: real) returns (r: Result<string, TileError>)
      modifies this`key
      ensures this.key == key
      ensures r.Err? <==> texture.Some?
      ensures r.Ok? ==> r.value == AssetUrl(coin)
      ensures r.Err? ==> r.error == TextureNotDisposed
    {
      this.key := key;
      if texture != None {
        return Err(TextureNotDisposed);
      }
      // The source resets the texture to null here; on this path it is null already.
      r := Ok(AssetUrl(coin));
    }

    /** The loader's success callback, first half: the loaded texture is attached. */
    method Loaded(url: string)
      modifies this`texture
      ensures texture == Some(Texture(url, false))
    {
      texture := Some(Texture(url, false));
    }
  }

  /** The slots of the pending loads, in order. */
  function LoadTiles(loads: seq<Load>): (r: seq<Tile>)
    // A verifier aid, not a property: it hands the comprehension's length and elements to the
    // multiset proofs of the transitions, which do not verify without it.
    ensures |r| == |loads| && forall k :: 0 <= k < |loads| ==> r[k] == loads[k].tile
  {
    seq(|loads|, k requires 0 <= k < |loads| => loads[k].tile)
  }

  function Reversed<T>(s: seq<T>): (r: seq<T>)
    ensures |r| == |s| && forall k :: 0 <= k < |s| ==> r[k] == s[|s| - 1 - k]
  {
    if s == [] then [] else [s[|s| - 1]] + Reversed(s[..|s| - 1])
  }

  lemma {:induction false} ReversedSameElements<T>(s: seq<T>)
    ensures multiset(Reversed(s)) == multiset(s)
  {
    if s != [] {
      ReversedSameElements(s[..|s| - 1]);
      assert s == s[..|s| - 1] + [s[|s| - 1]];
    }
  }

  predicate Distinct<T(==)>(s: seq<T>) {
    forall i, j :: 0 <= i < j < |s| ==> s[i] != s[j]
  }

  lemma {:induction false} DistinctOnce<T>(s: seq<T>, v: T)
    requires Distinct(s)
    ensures multiset(s)[v] <= 1
  {
    if s != [] {
      var init := s[..|s| - 1];
      assert s == init + [s[|s| - 1]];
      DistinctOnce(init, v);
      if s[|s| - 1] == v {
        assert v !in init;
      }
    }
  }

  /** The atlas rectangle of slot (x, y): the viewport and the scissor box it is drawn through. */
  function TileRect(x: int, y: int): Rect {
    Rect(x * TileWidth, y * TileWidth, TileWidth, TileWidth)
  }

  predicate InsideAtlas(r: Rect) {
    0 <= r.left && r.left + r.width <= TilecachePixelWidth && 0 <= r.bottom && r.bottom + r.height <= TilecachePixelWidth
  }

  predicate RectsDisjoint(a: Rect, b: Rect) {
    a.left + a.width <= b.left || b.left + b.width <= a.left || a.bottom + a.height <= b.bottom || b.bottom + b.height <= a.bottom
  }

  /** A slot's rectangle lies in the render target exactly when the slot is one of the 16 x 16. */
  lemma TileRectInside(x: int, y: int)
    ensures InsideAtlas(TileRect(x, y)) <==> 0 <= x < TilecacheWidth && 0 <= y < TilecacheWidth
  {
  }

  /** Distinct slots are drawn into non-overlapping rectangles. */
  lemma TileRectsDisjoint(x1: int, y1: int, x2: int, y2: int)
    ensures (x1, y1) != (x2, y2) <==> RectsDisjoint(TileRect(x1, y1), TileRect(x2, y2))
  {
    if x1 < x2 {
      assert x1 * TileWidth + TileWidth <= x2 * TileWidth;
    } else if x2 < x1 {
      assert x2 * TileWidth + TileWidth <= x1 * TileWidth;
    } else if y1 < y2 {
      assert y1 * TileWidth + TileWidth <= y2 * TileWidth;
    } else if y2 < y1 {
      assert y2 * TileWidth + TileWidth <= y1 * TileWidth;
    }
  }

  // ---------------------------------------------------------------------------------------------
  // The colour key of `getEncodedTileColor`: JavaScript's 32-bit `|` on the non-negative parts.

  function BitOr(a: nat, b: nat): nat
  {
    if a == 0 then b
    else if b == 0 then a
    else 2 * BitOr(a / 2, b / 2) + (if a % 2 == 1 || b % 2 == 1 then 1 else 0)
  }

  /** Or-ing in a value below 2^k onto a multiple of 2^k adds it. */
  lemma {:induction false} BitOrDisjoint(a: nat, k: nat, b: nat)
    requires b < Pow2(k)
    ensures BitOr(a * Pow2(k), b) == a * Pow2(k) + b
  {
    if k > 0 && a != 0 && b != 0 {
      var m := a * Pow2(k - 1);
      assert a * Pow2(k) == 2 * m;
      BitOrDisjoint(a, k - 1, b / 2);
      assert (2 * m) / 2 == m && (2 * m) % 2 == 0;
    }
  }

  /** `Math.log2(size)` converted to a 32-bit integer by `|`: rounded toward zero, so the floor
      of the logarithm for sizes of at least 1; `-Infinity` (size 0) and `NaN` (negative size)
      both become 0. */
  function Log2Bits(size: int): (r: nat)
    decreases if size < 0 then 0 else size
  {
    if size < 2 then 0 else 1 + Log2Bits(size / 2)
  }

  lemma {:induction false} Log2BitsBounds(size: int)
    requires size >= 1
    ensures Pow2(Log2Bits(size)) <= size < Pow2(Log2Bits(size) + 1)
    decreases size
  {
    if size >= 2 {
      Log2BitsBounds(size / 2);
    }
  }

  /** `Math.floor(8 * Math.random())`. */
  function TileNumber(random: real): (t: int)
    requires 0.0 <= random < 1.0
    ensures 0 <= t < 8
  {
    (8.0 * random).Floor
  }

  /** The colour packed for tile number `t` and side `size`:
      `0 | (t / 16) << 16 | (t % 16) << 8 | Math.log2(size)`; the quotient is truncated to an
      integer by `<<`, which is `/` here since `t` is non-negative. */
  function EncodeTileColor(t: nat, size: int): nat {
    BitOr(BitOr(BitOr(0, (t / TilecacheWidth) * Pow2(16)), (t % TilecacheWidth) * Pow2(8)), Log2Bits(size))
  }

  lemma Pow2Bytes()
    ensures Pow2(8) == 256 && Pow2(16) == 65536
  {
    assert Pow2(4) == 16;
    assert Pow2(8) == 16 * Pow2(4);
  }

  /** The colour's three bytes hold `t / 16`, `t % 16` and the size's logarithm, as long as that
      logarithm fits in a byte. */
  lemma EncodeTileColorFields(t: nat, size: int)
    requires Log2Bits(size) < 256
    ensures EncodeTileColor(t, size) == (t / 16) * 65536 + (t % 16) * 256 + Log2Bits(size)
  {
    var q, m, l := t / TilecacheWidth, t % TilecacheWidth, Log2Bits(size);
    Pow2Bytes();
    var hi := q * Pow2(16);
    assert BitOr(0, hi) == hi;
    BitOrDisjoint(q, 16, m * 256);
    var mid := BitOr(hi, m * Pow2(8));
    assert mid == q * 65536 + m * 256;
    assert mid == (q * 256 + m) * Pow2(8);
    BitOrDisjoint(q * 256 + m, 8, l);
  }

  /** For the tile numbers 0..7 that are drawn, the colour divided by 256 gives back the tile
      number and its low byte is the logarithm. */
  lemma EncodeTileColorBytes(t: nat, size: int)
    requires t < 8 && Log2Bits(size) < 256
    ensures EncodeTileColor(t, size) / 256 == t && EncodeTileColor(t, size) % 256 == Log2Bits(size)
  {
    EncodeTileColorFields(t, size);
    var c, l := EncodeTileColor(t, size), Log2Bits(size);
    assert t / 16 == 0 && t % 16 == t;
    assert c == t * 256 + l;
  }

  // ---------------------------------------------------------------------------------------------

  /** Where the constructor puts a tile: slot (x, y) at position 16 * x + y, with 0 <= y < 16. */
  function SlotIndex(t: Tile): int {
    if 0 <= t.y < TilecacheWidth then TilecacheWidth * t.x + t.y else -1
  }

  class TileCache {
    /** Slots ready for a download, used as a stack. */
    var freeTiles: seq<Tile>
    /** Slots whose texture arrived and that wait to be drawn, used as a stack. */
    var downloadedTiles: seq<Tile>
    var colorCache: map<TileKey, int>
    /** Loads started by `downloadTile` whose success or error callback has not run. */
    var inFlight: seq<Load>
    /** What each slot of the render target shows. */
    var atlas: map<(int, int), Paint>
    /** Slots drawn into the atlas; the source keeps no list of them and never frees them. */
    ghost var rendered: seq<Tile>
    /** The 256 tiles the constructor made, slot (x, y) at index 16 * x + y. */
    ghost const slots: seq<Tile>

    ghost predicate Valid()
      reads this, slots`texture
    {
      ValidState(slots, Textures(slots), freeTiles, inFlight, downloadedTiles, rendered)
    }

    /** Every slot is in exactly one state: free, in flight, downloaded or rendered, and appears
        there once. */
    lemma OneStateEach(t: Tile)
      requires Valid() && t in slots
      ensures multiset(freeTiles)[t] + multiset(LoadTiles(inFlight))[t] + multiset(downloadedTiles)[t]
                + multiset(rendered)[t] == 1
    {
      LayoutDistinct(slots);
      DistinctOnce(slots, t);
    }

    /** The pool holds all 256 slots at all times. */
    lemma SlotsConserved()
      requires Valid()
      ensures |freeTiles| + |inFlight| + |downloadedTiles| + |rendered| == SlotCount
    {
      assert |multiset(slots)| == |slots|;
    }

    /** A slot of the pool is one of the 16 x 16, so its rectangle lies inside the render target. */
    lemma SlotInsideAtlas(t: Tile)
      requires Valid() && InPool(slots, t)
      ensures InsideAtlas(TileRect(t.x, t.y))
    {
      TileRectInside(t.x, t.y);
    }

    /** The state after the constructor has issued its first `n` downloads. */
    ghost predicate Started(coins: seq<real>, n: nat)
      reads this, slots
    {
      && Valid() && n <= |coins| && n <= SlotCount
      && downloadedTiles == [] && rendered == [] && atlas == map[] && colorCache == map[]
      && |freeTiles| == SlotCount - n
      && (forall j :: 0 <= j < SlotCount - n ==> freeTiles[j] == slots[SlotCount - 1 - j])
      && |inFlight| == n
      && (forall k :: 0 <= k < n ==> inFlight[k] == Load(slots[k], AssetUrl(coins[k])) && slots[k].key == Key(0, 0, 0))
    }

    constructor (coins: seq<real>)
      requires |coins| >= 8
      ensures Started(coins, 8)
    {
      var ts := NewSlots();
      slots := ts;
      freeTiles := Reversed(ts);
      downloadedTiles, inFlight, rendered := [], [], [];
      colorCache, atlas := map[], map[];
      new;
      InitiallyStarted(coins);
      StartDownloads(coins);
    }

    /** Before its downloads the constructor has every slot free, in reverse creation order. */
    lemma InitiallyStarted(coins: seq<real>)
      requires Layout(slots) && forall k :: 0 <= k < SlotCount ==> slots[k].texture == None
      requires freeTiles == Reversed(slots) && downloadedTiles == [] && inFlight == [] && rendered == []
      requires atlas == map[] && colorCache == map[]
      ensures Started(coins, 0)
    {
      InitialValid(slots, Textures(slots));
    }

    /** The constructor's eight `downloadTile(0, 0, 0)` calls. */
    method StartDownloads(coins: seq<real>)
      requires Started(coins, 0) && |coins| >= 8
      modifies this, slots
      ensures Started(coins, 8)
    {
      StartDownload(coins, 0);
      StartDownload(coins, 1);
      StartDownload(coins, 2);
      StartDownload(coins, 3);
      StartDownload(coins, 4);
      StartDownload(coins, 5);
      StartDownload(coins, 6);
      StartDownload(coins, 7);
    }

    /** One of the constructor's `downloadTile(0, 0, 0)` calls: the next slot in creation order
        starts loading. */
    method StartDownload(coins: seq<real>, n: nat)
      requires Started(coins, n) && n < |coins| && n < SlotCount
      modifies this, slots[n]
      ensures Started(coins, n + 1)
    {
      assert freeTiles[|freeTiles| - 1] == slots[n];
      var r := DownloadTile(0, 0, 0, coins[n]);
      assert r.Ok?;
    }

    /** The constructor's nested loops: one fresh tile per slot, (0, 0), (0, 1), ..., (15, 15). */
    static method NewSlots() returns (ts: seq<Tile>)
      ensures Layout(ts)
      ensures forall k :: 0 <= k < SlotCount ==> fresh(ts[k]) && ts[k].texture == None
    {
      ts := [];
      var x := 0;
      while x < TilecacheWidth
        invariant 0 <= x <= TilecacheWidth && |ts| == TilecacheWidth * x
        invariant forall k :: 0 <= k < |ts| ==>
          fresh(ts[k]) && SlotIndex(ts[k]) == k && ts[k].texture == None
      {
        var y := 0;
        while y < TilecacheWidth
          invariant 0 <= y <= TilecacheWidth && |ts| == TilecacheWidth * x + y
          invariant forall k :: 0 <= k < |ts| ==>
            fresh(ts[k]) && SlotIndex(ts[k]) == k && ts[k].texture == None
          {
          var t := new Tile(x, y);
          ts := ts + [t];
          y := y + 1;
        }
        x := x + 1;
      }
    }

    /** `downloadTile`: takes the last free slot and starts loading a texture into it under the
        key of (x, y, size). With no free slot it fails and nothing changes. */
    method DownloadTile(x: int, y: int, size: int, coin: real) returns (r: Result<(), CacheError>)
      requires Valid()
      modifies this, if freeTiles == [] then {} else {freeTiles[|freeTiles| - 1]}
      ensures Valid() && rendered == old(rendered)
      ensures downloadedTiles == old(downloadedTiles) && atlas == old(atlas) && colorCache == old(colorCache)
      ensures r.Ok? <==> old(freeTiles) != []
      ensures r.Err? ==> r.error == PoolEmpty && freeTiles == old(freeTiles) && inFlight == old(inFlight)
      ensures r.Ok? ==>
        var t := old(freeTiles)[|old(freeTiles)| - 1];
        && freeTiles == old(freeTiles)[..|old(freeTiles)| - 1]
        && inFlight == old(inFlight) + [Load(t, AssetUrl(coin))]
        && t.key == Key(x, y, size)
    {
      if freeTiles == [] {
        return Err(PoolEmpty);
      }
      // The load is recorded together with the pop; `download` then only writes the key, which
      // nothing reads, so the order of the two steps is not observable.
      var tile := PopFree(AssetUrl(coin));
      var url := tile.Download(Key(x, y, size), coin);
      if url.Err? {
        assert false;
      }
      r := Ok(());
    }

    /** `freeTiles.pop()`, with the load of `url` into the popped slot registered. */
    method PopFree(url: string) returns (tile: Tile)
      requires Valid() && freeTiles != []
      modifies this
      ensures Valid() && tile.texture == None
      ensures tile == old(freeTiles[|freeTiles| - 1]) && freeTiles == old(freeTiles[..|freeTiles| - 1])
      ensures inFlight == old(inFlight) + [Load(tile, url)]
      ensures downloadedTiles == old(downloadedTiles) && rendered == old(rendered)
      ensures atlas == old(atlas) && colorCache == old(colorCache)
    {
      tile := freeTiles[|freeTiles| - 1];
      assert tile.texture == Textures(slots)[SlotIndex(tile)];
      FreeToFlightValid(slots, Textures(slots), freeTiles, inFlight, downloadedTiles, rendered, Load(tile, url));
      freeTiles := freeTiles[..|freeTiles| - 1];
      inFlight := inFlight + [Load(tile, url)];
    }

    /** The success callback of the `k`-th pending load: the texture is attached and the slot is
        pushed onto `downloadedTiles`. */
    method OnLoadFinished(k: nat)
      requires Valid() && k < |inFlight|
      modifies this, inFlight[k].tile
      ensures Valid() && rendered == old(rendered)
      ensures freeTiles == old(freeTiles) && atlas == old(atlas) && colorCache == old(colorCache)
      ensures inFlight == old(inFlight[..k] + inFlight[k + 1..])
      ensures downloadedTiles == old(downloadedTiles) + [old(inFlight[k].tile)]
      ensures old(inFlight[k].tile).texture == Some(Texture(old(inFlight[k].url), false))
    {
      var load := inFlight[k];
      var tile := load.tile;
      ghost var tex := Textures(slots);
      PushDownloaded(k);
      tile.Loaded(load.url);
      assert Textures(slots) == tex[SlotIndex(tile) := Some(Texture(load.url, false))];
    }

    /** The bookkeeping of the success callback: the `k`-th load is answered and its slot pushed
        onto `downloadedTiles`; the invariant holds once the slot's texture is attached. */
    method PushDownloaded(k: nat)
      requires Valid() && k < |inFlight|
      modifies this
      ensures ValidState(slots, old(Textures(slots))[SlotIndex(old(inFlight[k].tile)) := Some(Texture(old(inFlight[k].url), false))],
                         freeTiles, inFlight, downloadedTiles, rendered)
      ensures rendered == old(rendered) && freeTiles == old(freeTiles) && atlas == old(atlas) && colorCache == old(colorCache)
      ensures inFlight == old(inFlight[..k] + inFlight[k + 1..])
      ensures downloadedTiles == old(downloadedTiles) + [old(inFlight[k].tile)]
    {
      var load := inFlight[k];
      FlightToDownloadedValid(slots, Textures(slots), freeTiles, inFlight, downloadedTiles, rendered, k, load.url);
      inFlight := inFlight[..k] + inFlight[k + 1..];
      downloadedTiles := downloadedTiles + [load.tile];
    }

    /** The error closure of `downloadTile` run for the `k`-th pending load, as evidently intended:
        the slot goes back onto `freeTiles`. As written the closure is never called on a failed
        load (see `FailedLoadStaysPending`). */
    method OnLoadError(k: nat)
      requires Valid() && k < |inFlight|
      modifies this
      ensures Valid() && rendered == old(rendered)
      ensures downloadedTiles == old(downloadedTiles) && atlas == old(atlas) && colorCache == old(colorCache)
      ensures inFlight == old(inFlight[..k] + inFlight[k + 1..])
      ensures freeTiles == old(freeTiles) + [old(inFlight[k].tile)]
    {
      var tile := inFlight[k].tile;
      FlightToFreeValid(slots, Textures(slots), freeTiles, inFlight, downloadedTiles, rendered, k);
      inFlight := inFlight[..k] + inFlight[k + 1..];
      freeTiles := freeTiles + [tile];
    }

    /** A failed load as the source is written: the error closure is passed in the loader's
        progress-callback position and no error callback is given, so nothing runs and the state
        stays as it is. The load stays pending and its slot is not free. */
    lemma FailedLoadStaysPending(k: nat)
      requires Valid() && k < |inFlight|
      ensures inFlight[k].tile in LoadTiles(inFlight) && inFlight[k].tile !in freeTiles
    {
      var t := inFlight[k].tile;
      assert LoadTiles(inFlight)[k] == t;
      assert InPool(slots, t);
      OneStateEach(t);
    }

    /** `update`: draws the most recently downloaded slot, if any, and only that one; the slot is
        not returned to the pool. */
    method Update() returns (r: Option<Rect>)
      requires Valid()
      modifies this, if downloadedTiles == [] then {} else {downloadedTiles[|downloadedTiles| - 1]}
      ensures Valid()
      ensures freeTiles == old(freeTiles) && inFlight == old(inFlight) && colorCache == old(colorCache)
      ensures r.Some? <==> old(downloadedTiles) != []
      ensures r.None? ==> downloadedTiles == old(downloadedTiles) && rendered == old(rendered) && atlas == old(atlas)
      ensures r.Some? ==>
        var t := old(downloadedTiles)[|old(downloadedTiles)| - 1];
        && r.value == TileRect(t.x, t.y) && InsideAtlas(r.value)
        && downloadedTiles == old(downloadedTiles)[..|old(downloadedTiles)| - 1]
        && rendered == old(rendered) + [t]
        && old(t.texture).Some? && atlas == old(atlas)[(t.x, t.y) := Image(old(t.texture).value.url)]
    {
      r := None;
      // The source's `while` breaks at the end of its first pass, so it runs at most once.
      if |downloadedTiles| > 0 {
        var tile := downloadedTiles[|downloadedTiles| - 1];
        ghost var tex := Textures(slots);
        assert tex[SlotIndex(tile)] == tile.texture;
        SlotInsideAtlas(tile);
        DownloadedToRenderedValid(slots, tex, freeTiles, inFlight, downloadedTiles, rendered);
        downloadedTiles := downloadedTiles[..|downloadedTiles| - 1];
        var drawn := RenderIntoCache(tile);
        rendered := rendered + [tile];
        assert Textures(slots) == tex[SlotIndex(tile) := Some(tex[SlotIndex(tile)].value.(disposed := true))];
        r := Some(drawn.value);
      }
    }

    /** `renderIntoCache`: draws the tile's texture through the viewport and scissor box of its
        slot and disposes the texture; with no texture attached it paints the slot untextured and then
        fails on `dispose`. */
    method RenderIntoCache(tile: Tile) returns (r: Result<Rect, CacheError>)
      modifies this, tile`texture
      ensures freeTiles == old(freeTiles) && downloadedTiles == old(downloadedTiles) && inFlight == old(inFlight)
      ensures rendered == old(rendered) && colorCache == old(colorCache)
      ensures r.Ok? <==> old(tile.texture).Some?
      ensures r.Ok? ==>
        && r.value == TileRect(tile.x, tile.y)
        && atlas == old(atlas)[(tile.x, tile.y) := Image(old(tile.texture).value.url)]
        && tile.texture == Some(old(tile.texture).value.(disposed := true))
      ensures r.Err? ==> r.error == TextureMissing && atlas == old(atlas)[(tile.x, tile.y) := Untextured] && tile.texture == None
    {
      var left := tile.x * TileWidth;
      var bottom := tile.y * TileWidth;
      var viewport := Rect(left, bottom, TileWidth, TileWidth);
      match tile.texture
      case None =>
        atlas := atlas[(tile.x, tile.y) := Untextured];
        r := Err(TextureMissing);
      case Some(texture) =>
        atlas := atlas[(tile.x, tile.y) := Image(texture.url)];
        tile.texture := Some(texture.(disposed := true));
        r := Ok(viewport);
    }

    /** `getEncodedTileColor`: the colour stored under (x, y, size), packing a random tile number
        and the size's logarithm on the first request. */
    method GetEncodedTileColor(x: int, y: int, size: int, random: real) returns (color: int)
      requires 0.0 <= random < 1.0
      modifies this
      ensures freeTiles == old(freeTiles) && downloadedTiles == old(downloadedTiles) && inFlight == old(inFlight)
      ensures rendered == old(rendered) && atlas == old(atlas)
      ensures Key(x, y, size) in old(colorCache) ==> color == old(colorCache)[Key(x, y, size)] && colorCache == old(colorCache)
      ensures Key(x, y, size) !in old(colorCache) ==>
        color == EncodeTileColor(TileNumber(random), size) && colorCache == old(colorCache)[Key(x, y, size) := color]
    {
      var key := Key(x, y, size);
      if key !in colorCache {
        var tileNumber := TileNumber(random);
        var c := 0;
        c := BitOr(c, (tileNumber / TilecacheWidth) * Pow2(16));
        c := BitOr(c, (tileNumber % TilecacheWidth) * Pow2(8));
        c := BitOr(c, Log2Bits(size));
        colorCache := colorCache[key := c];
      }
      color := colorCache[key];
    }
  }

  /** The constructor's tiles: one per slot, slot (x, y) at position 16 * x + y. */
  ghost predicate Layout(all: seq<Tile>) {
    && |all| == SlotCount
    && (forall k :: 0 <= k < SlotCount ==> SlotIndex(all[k]) == k)
  }

  /** Each tile of the layout sits at its own position, so none occurs twice. */
  lemma LayoutDistinct(all: seq<Tile>)
    requires Layout(all)
    ensures Distinct(all)
  {
    forall i, j | 0 <= i < j < |all|
      ensures all[i] != all[j]
    {
      assert SlotIndex(all[i]) == i && SlotIndex(all[j]) == j;
    }
  }

  /** `t` is the tile the layout keeps at `t`'s own slot. */
  predicate InPool(all: seq<Tile>, t: Tile) {
    0 <= SlotIndex(t) < |all| && all[SlotIndex(t)] == t
  }

  /** The textures of the slots, in slot order. */
  ghost function Textures(all: seq<Tile>): (r: seq<Option<Texture>>)
    reads all`texture
    ensures |r| == |all| && forall k :: 0 <= k < |all| ==> r[k] == all[k].texture
  {
    if all == [] then [] else Textures(all[..|all| - 1]) + [all[|all| - 1].texture]
  }

  /** The cache invariant on the slots, their textures `tex` and the four stacks: every slot is
      in exactly one of them, free and loading slots have no texture, downloaded slots a live
      one, rendered slots a disposed one. */
  ghost predicate ValidState(all: seq<Tile>, tex: seq<Option<Texture>>, free: seq<Tile>, flight: seq<Load>,
                             down: seq<Tile>, rend: seq<Tile>)
  {
    && Layout(all) && |tex| == SlotCount
    && Conserved(free, flight, down, rend, all)
    && (forall t :: t in free ==> InPool(all, t) && tex[SlotIndex(t)] == None)
    && (forall t :: t in LoadTiles(flight) ==> InPool(all, t) && tex[SlotIndex(t)] == None)
    && (forall t :: t in down ==> InPool(all, t) && tex[SlotIndex(t)].Some? && !tex[SlotIndex(t)].value.disposed)
    && (forall t :: t in rend ==> InPool(all, t) && tex[SlotIndex(t)].Some? && tex[SlotIndex(t)].value.disposed)
  }

  /** The free, in-flight, downloaded and rendered slots together are the slots, each as often as
      it occurs there. */
  ghost predicate Conserved(free: seq<Tile>, flight: seq<Load>, down: seq<Tile>, rend: seq<Tile>, all: seq<Tile>) {
    multiset(free) + multiset(LoadTiles(flight)) + multiset(down) + multiset(rend) == multiset(all)
  }

  /** The constructor's state: all slots free, in reverse creation order, none with a texture. */
  lemma InitialValid(all: seq<Tile>, tex: seq<Option<Texture>>)
    requires Layout(all) && |tex| == SlotCount && forall k :: 0 <= k < SlotCount ==> tex[k] == None
    ensures ValidState(all, tex, Reversed(all), [], [], [])
  {
    ReversedSameElements(all);
    assert LoadTiles([]) == [];
  }

  /** `downloadTile` keeps the invariant: the last free slot, with no texture, starts loading. */
  lemma FreeToFlightValid(all: seq<Tile>, tex: seq<Option<Texture>>, free: seq<Tile>, flight: seq<Load>,
                          down: seq<Tile>, rend: seq<Tile>, l: Load)
    requires free != [] && l.tile == free[|free| - 1] && ValidState(all, tex, free, flight, down, rend)
    ensures ValidState(all, tex, free[..|free| - 1], flight + [l], down, rend)
  {
    FreeToFlight(free, flight, down, rend, all, l);
  }

  /** The success callback keeps the invariant: the `k`-th load's slot gets its live texture and
      is downloaded. It was in no other stack, since it occurs once among the slots. */
  lemma FlightToDownloadedValid(all: seq<Tile>, tex: seq<Option<Texture>>, free: seq<Tile>, flight: seq<Load>,
                                down: seq<Tile>, rend: seq<Tile>, k: nat, url: string)
    requires k < |flight| && ValidState(all, tex, free, flight, down, rend)
    ensures var t := flight[k].tile;
      ValidState(all, tex[SlotIndex(t) := Some(Texture(url, false))], free, flight[..k] + flight[k + 1..], down + [t], rend)
  {
    var t := flight[k].tile;
    var rest := flight[..k] + flight[k + 1..];
    FlightToDownloaded(free, flight, down, rend, all, k);
    LayoutDistinct(all);
    DistinctOnce(all, t);
    assert multiset(LoadTiles(flight))[t] == multiset(LoadTiles(rest))[t] + 1;
    assert multiset(free)[t] == 0 && multiset(LoadTiles(rest))[t] == 0;
  }

  /** The error callback keeps the invariant: the slot, still without texture, is free again. */
  lemma FlightToFreeValid(all: seq<Tile>, tex: seq<Option<Texture>>, free: seq<Tile>, flight: seq<Load>,
                          down: seq<Tile>, rend: seq<Tile>, k: nat)
    requires k < |flight| && ValidState(all, tex, free, flight, down, rend)
    ensures ValidState(all, tex, free + [flight[k].tile], flight[..k] + flight[k + 1..], down, rend)
  {
    FlightToFree(free, flight, down, rend, all, k);
  }

  /** `update` keeps the invariant: the last downloaded slot's texture is disposed and the slot
      is rendered. It occurs nowhere else, since it occurs once among the slots. */
  lemma DownloadedToRenderedValid(all: seq<Tile>, tex: seq<Option<Texture>>, free: seq<Tile>, flight: seq<Load>,
                                  down: seq<Tile>, rend: seq<Tile>)
    requires down != [] && ValidState(all, tex, free, flight, down, rend)
    ensures var t := down[|down| - 1];
      ValidState(all, tex[SlotIndex(t) := Some(tex[SlotIndex(t)].value.(disposed := true))], free, flight,
                 down[..|down| - 1], rend + [t])
  {
    var t := down[|down| - 1];
    var init := down[..|down| - 1];
    DownloadedToRendered(free, flight, down, rend, all);
    LayoutDistinct(all);
    DistinctOnce(all, t);
    assert multiset(down)[t] == multiset(init)[t] + 1;
    assert multiset(init)[t] == 0;
  }

  /** `downloadTile`: the last free slot starts loading. */
  lemma FreeToFlight(free: seq<Tile>, flight: seq<Load>, down: seq<Tile>, rend: seq<Tile>, all: seq<Tile>, l: Load)
    requires free != [] && l.tile == free[|free| - 1] && Conserved(free, flight, down, rend, all)
    ensures Conserved(free[..|free| - 1], flight + [l], down, rend, all)
  {
    assert free == free[..|free| - 1] + [l.tile];
    LoadTilesAppend(flight, [l]);
    assert LoadTiles([l]) == [l.tile];
  }

  /** With failed loads never answered, once all 256 slots are pending no slot is free,
      downloaded or rendered, so every later `downloadTile` finds the free stack empty. */
  lemma FailedLoadsExhaustPool(all: seq<Tile>, tex: seq<Option<Texture>>, free: seq<Tile>, flight: seq<Load>,
                               down: seq<Tile>, rend: seq<Tile>)
    requires ValidState(all, tex, free, flight, down, rend) && |flight| == SlotCount
    ensures free == [] && down == [] && rend == []
  {
    assert |multiset(all)| == |all|;
    assert |multiset(LoadTiles(flight))| == |flight|;
  }

  /** The success callback: the `k`-th load's slot is downloaded. */
  lemma FlightToDownloaded(free: seq<Tile>, flight: seq<Load>, down: seq<Tile>, rend: seq<Tile>, all: seq<Tile>, k: nat)
    requires k < |flight| && Conserved(free, flight, down, rend, all)
    ensures Conserved(free, flight[..k] + flight[k + 1..], down + [flight[k].tile], rend, all)
  {
    LoadsSplit(flight, k);
  }

  /** The error callback: the `k`-th load's slot is free again. */
  lemma FlightToFree(free: seq<Tile>, flight: seq<Load>, down: seq<Tile>, rend: seq<Tile>, all: seq<Tile>, k: nat)
    requires k < |flight| && Conserved(free, flight, down, rend, all)
    ensures Conserved(free + [flight[k].tile], flight[..k] + flight[k + 1..], down, rend, all)
  {
    LoadsSplit(flight, k);
  }

  /** `update`: the last downloaded slot is rendered. */
  lemma DownloadedToRendered(free: seq<Tile>, flight: seq<Load>, down: seq<Tile>, rend: seq<Tile>, all: seq<Tile>)
    requires down != [] && Conserved(free, flight, down, rend, all)
    ensures Conserved(free, flight, down[..|down| - 1], rend + [down[|down| - 1]], all)
  {
    assert down == down[..|down| - 1] + [down[|down| - 1]];
  }

  lemma LoadTilesAppend(a: seq<Load>, b: seq<Load>)
    ensures LoadTiles(a + b) == LoadTiles(a) + LoadTiles(b)
  {
  }

  lemma LoadsSplit(loads: seq<Load>, k: nat)
    requires k < |loads|
    ensures multiset(LoadTiles(loads)) == multiset(LoadTiles(loads[..k] + loads[k + 1..])) + multiset{loads[k].tile}
  {
    var a, b := loads[..k], loads[k + 1..];
    assert loads == a + [loads[k]] + b;
    LoadTilesAppend(a + [loads[k]], b);
    LoadTilesAppend(a, [loads[k]]);
    LoadTilesAppend(a, b);
    assert LoadTiles([loads[k]]) == [loads[k].tile];
  }
}
