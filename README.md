# mapvis core in Dafny

A model of the core of mapvis, a browser terrain viewer. Three parts are modelled:

- **Quadtree level of detail** (`src/quadtree.ts`).
  - `getTiles` walks a 1024 x 1024 quadtree with an explicit LIFO stack. A node is emitted as a
    leaf when its side is 1 or its centre is farther than its side from the camera; otherwise its
    four children are pushed.
  - Every vector it creates on the way comes from `VectorCache`, a pool of 10000 preallocated
    scratch vectors with a bump index.
  - `Renderer.update` places the first 300 leaves on meshes 0..299. Each gets a colour remembered
    per leaf key. The remaining meshes are hidden.
- **Tile-slot cache** (`src/tilecache.ts`).
  - A 4096 x 4096 render target is cut into 16 x 16 slots. Each slot is a `Tile`, and a slot is
    free, loading, downloaded, or rendered.
  - `downloadTile` takes the last free slot and starts a texture load. The loader's success
    callback pushes the slot onto `downloadedTiles`. The closure meant for errors would return
    the slot to `freeTiles`, but it is passed where the loader expects its progress callback, so
    a failed load never runs it (see Findings).
  - `update` draws the most recent downloaded slot into its rectangle and disposes its texture.
  - `getEncodedTileColor` packs a random tile number and the logarithm of a tile's size into a
    colour, memoised per key.
- **Clipmap vertex grid** (`src/clipmap.ts`).
  - `buildGridHelper` inserts, for each level from `level` down to 0, the width x width lattice
    of points spaced 2^level apart and centred on the origin into a dictionary.
  - A point seen for the first time gets the dictionary's size as its index.

Files:

- `wrappers.dfy`: `Option` and `Result`. `Result` works with `:-` and stands for the source's
  thrown errors.
- `powers.dfy`: `Pow2`, shared by the scratch-vector bound, the colour encoding and the clipmap
  lattice.
- `quadtree.dfy`: module `Quadtree`.
  - `Select` is the leaf sequence `getTiles` returns, and `GetCalls` counts scratch vectors.
  - Lemmas on tiling, disjointness and order.
  - The `VectorCache` class, with an `array` of 10000 slots.
  - `GetTiles` is proved against `Select`.
  - The `Renderer` class.
- `quadtree_bound.dfy`: module `QuadtreeBound`. It proves that one `getTiles` call uses at most
  722 scratch vectors for every camera position, so the pool never runs out.
- `tilecache.dfy`: module `TileCache`.
  - The `Tile` and `TileCache` classes.
  - A `Valid` invariant says every one of the 256 slots is in exactly one state, with the texture
    state that goes with it.
  - The colour encoding.
- `clipmap.dfy`: module `Clipmap`.
  - The `Dictionary` class.
  - The loop nests as methods, proved against `InsertAll` over the visit order.
  - Lemmas on key coverage, dense indices, no overwrite, order, the redundant second pass, and
    growth.

Modelling choices:

- JavaScript numbers:
  - Coordinates and sizes are `int`; camera positions and colours are `real`.
  - `Math.floor(width / 2)` is Dafny's `/`, which is the floor for a positive divisor.
  - `Math.round` is `(v + 0.5).Floor`, which rounds halves up as JavaScript does.
  - `|` on the non-negative parts of the colour is `BitOr` on naturals.
  - `color |= Math.log2(size)` is `Log2Bits`: the exact floor of the logarithm for sizes of at
    least 1, and 0 for sizes 0 and below, since ToInt32 maps -Infinity and NaN to 0. The source's
    double-precision `Math.log2` is not modelled (see Left out).
  - The colour's high field is `(t / 16) << 16`, where `<<` truncates the fraction; for
    non-negative `t` that is integer division.
- The distance test `distance > size` compares squares. Both sides are non-negative, so the
  result is the same.
- `Math.random()` values are parameters:
  - `coin`, which chooses the asset URL;
  - `random`, which draws the tile number;
  - `random[j]`, the colour drawn for mesh j.
- String keys `${x}|${y}|${size}` are the triples themselves, since the formatting is injective
  on integers. `Point`'s `toString` key is the pair of its rounded coordinates.
- An error the source throws is a `Result.Err`:
  - reading scratch slot 10000, where `undefined.set` throws;
  - `pop()` on an empty free list, where `undefined.download` throws;
  - `download` on a tile whose texture field is not null;
  - `dispose` on a null texture.

  The state the source leaves behind when it throws is modelled too (for example, the scratch
  index has already been incremented).
- The texture loader's callbacks run at some later time, in any order. `TileCache.inFlight`
  lists the loads started and not yet answered. `OnLoadFinished(k)` is the success callback of
  the k-th pending load. A failed load, as written, runs nothing (`FailedLoadStaysPending(k)`).
  `OnLoadError(k)` is the error closure run as evidently intended, which returns the slot.

## Model

| member | source | states |
|---|---|---|
| Quadtree.RootIsPow2 | src/quadtree.ts:3 | The root side 1024 is a power of two, so halving always reaches side 1. |
| Quadtree.IsLeaf | src/quadtree.ts:104-113 | A popped node is emitted as it is when its side is 1, without a distance test, or when its centre is farther than its side from the camera (compared squared). |
| Quadtree.Children | src/quadtree.ts:114-117 | The four half-size children in the order they are pushed: (x, y), (x + h, y), (x, y + h), (x + h, y + h). |
| Quadtree.GetCalls | src/quadtree.ts:101-117 | The scratch vectors a popped node's subtree takes: none for side 1, one for the centre of a leaf, and the centre plus four children for a subdivided node, plus its children's. |
| Quadtree.TotalGetCalls | src/quadtree.ts:99-117 | One `getTiles` call takes one vector for the root and then the root's `GetCalls`. |
| QuadtreeBound.IsPow2Exactly | src/quadtree.ts:3 | The halving test `IsPow2` holds exactly for the numbers 2^k, so the quadtree's and the bound's notions of power of two agree. |
| Quadtree.Select | src/quadtree.ts:97-120 | The leaves of a subtree in emission order; there is at least one. |
| Quadtree.SelectTiles | src/quadtree.ts:101-118 | Every unit cell of a power-of-two node is covered by exactly one emitted leaf; cells outside it by none. |
| Quadtree.SelectLeavesInside | src/quadtree.ts:104-117 | Every leaf is a power-of-two square inside its ancestor, aligned when the ancestor is. |
| Quadtree.LeavesAreRootTiles | src/quadtree.ts:97-120 | Every leaf `getTiles` returns is an aligned power-of-two square of side 1 to 1024 inside the root. |
| Quadtree.LeavesCoverRoot | src/quadtree.ts:97-120 | The leaves tile the root square: each unit cell inside it is covered once, cells outside are not covered. |
| Quadtree.LeavesPairwiseDisjoint | src/quadtree.ts:104-117 | Any two leaves of a subtree are disjoint squares. |
| Quadtree.LeavesDistinct | src/quadtree.ts:97-120 | No leaf is returned twice. |
| Quadtree.EmittedWhole | src/quadtree.ts:104-117 | A node is emitted as it is exactly when it has side 1 or its centre is farther than its side from the camera. Otherwise it yields at least four strictly smaller leaves. |
| Quadtree.OnceSubdividedOrder | src/quadtree.ts:114-117 | Children are emitted last-pushed first. Camera 1000 above the centre: the four quarters, upper right first, after 10 scratch vectors. |
| Quadtree.PushChildren | src/quadtree.ts:114-117 | Pushing the four children in source order leaves the stack's pending leaves, scratch-vector count and termination weight in step with the popped node's. |
| Quadtree.VectorCache.constructor | src/quadtree.ts:6-10 | 10000 scratch vectors, index 0. |
| Quadtree.VectorCache.Get | src/quadtree.ts:12-14 | Writes (x, y, z) into slot i and returns it, and the index moves on. Past the last slot it fails, and the index still moves. |
| Quadtree.VectorCache.From | src/quadtree.ts:16-18 | Copies the vector into slot i and returns it, and the index moves on. Past the last slot it fails, and the index still moves. |
| Quadtree.VectorCache.Reset | src/quadtree.ts:20-22 | The index goes back to 0; the slots keep their contents. |
| Quadtree.GetTiles | src/quadtree.ts:97-120 | Succeeds exactly when the walk needs at most 10000 scratch vectors. It then returns `Select(Root)` in the source's order, with the index at the number used; otherwise the index ends at 10001. |
| Quadtree.Descend | src/quadtree.ts:101-118 | The stack loop from a given node: same result and index accounting as `GetTiles`, for any start node of side at least 1. |
| Quadtree.PushQuarters | src/quadtree.ts:114-117 | Pushes the four children in source order, using four scratch vectors, or fails when the pool runs out. |
| Quadtree.Renderer.constructor | src/quadtree.ts:43-52 | 300 meshes, each a unit plane at depth -1 with the white colour 0xffffff of `new THREE.Color()`, and an empty colour cache. |
| Quadtree.Renderer.Update | src/quadtree.ts:68-85 | Fails exactly when `getTiles` does, and then changes neither meshes nor colours. On success the first min(leaves, 300) leaves are placed on meshes 0.. in order, with their cached colour or, when that is absent or 0, their random one, now cached. Every other mesh is hidden and every other cached colour kept. |
| Quadtree.Renderer.Draw | src/quadtree.ts:70-83 | The two loops of `update` over a given duplicate-free leaf list, with the same outcome as above. |
| Quadtree.MeshColor | src/quadtree.ts:76 | The colour a leaf is drawn with: the cached one when present and not 0 (JavaScript's or-fallback), else the random draw scaled to 0xffffff. |
| Quadtree.PlacedMesh | src/quadtree.ts:73-74 | A placed mesh sits at the tile's centre at depth -1, scaled to the tile's side, with the given colour, and is shown. |
| Quadtree.ColorsAfter | src/quadtree.ts:75-77 | The colour cache after the `for` loop has placed the first k leaves, each stored with the colour the cache gave it at that moment. |
| Quadtree.PlacedAt | src/quadtree.ts:72-79 | The mesh the j-th leaf is placed on: at the leaf's centre, scaled to its side, shown, with the colour the cache gives it after the first j placements. |
| Quadtree.Renderer.PlaceTiles | src/quadtree.ts:70-80 | The `for` loop places min(leaves, 300) leaves on meshes 0.. in order. Each gets the colour the cache holds for it at that moment (or its random one when absent or 0), and that colour is then cached. Later meshes are untouched. |
| Quadtree.Renderer.HideFrom | src/quadtree.ts:81-83 | The `while` loop hides every mesh from the first unused one on and leaves the earlier meshes as they are. |
| Quadtree.ColorsAfterKeys | src/quadtree.ts:75-77 | After k placements the cache's keys are the old keys plus the first k leaves' keys. |
| Quadtree.ColorsAfterKept | src/quadtree.ts:75-77 | A cached colour whose key is not among the first k leaves is kept. |
| Quadtree.ColorAtPlacement | src/quadtree.ts:76 | A leaf met for the first time is drawn with the colour the original cache gives it, or its random one. |
| Quadtree.ColorStaysCached | src/quadtree.ts:76-77 | With no repeated leaf, the colour a leaf is drawn with stays cached under its key while later leaves are placed. |
| Quadtree.PlacedFirstColors | src/quadtree.ts:70-80 | With no repeated leaf, every placed mesh carries the original cache's colour (or its random one), and the final cache holds exactly that colour for its leaf. |
| QuadtreeBound.GetCallsBySubdivided | src/quadtree.ts:104-117 | A subtree's walk uses at most 1 + 8 x (number of subdivided nodes) scratch vectors. |
| QuadtreeBound.SubdividedIsNear | src/quadtree.ts:108-113 | A subdivided node's centre lies within its side of the camera on each axis. |
| QuadtreeBound.NearCellsAtMostThree | src/quadtree.ts:108-113 | At most three cells of one row can be that close to the camera. |
| QuadtreeBound.SubdividedAtNear | src/quadtree.ts:114-117 | The subdivided nodes e levels down are at most the product of the near cells on the two axes. |
| QuadtreeBound.SubdividedByLevels | src/quadtree.ts:104-107 | In a node of side 2^E, every subdivided node lies less than E levels down, because side-1 nodes are never subdivided. |
| QuadtreeBound.SubdividedPerLevel | src/quadtree.ts:108-117 | At most 9 nodes are subdivided on any level. |
| QuadtreeBound.GetTilesNeverExhausts | src/quadtree.ts:97-120 | For every camera one `getTiles` call uses at most 722 scratch vectors, fewer than the 10000 available. |
| TileCache.AssetUrl | src/tilecache.ts:24 | The asset a load fetches: `assets/test.png` when the random draw is below 0.5, else `assets/terrain.png`. |
| TileCache.Tile.constructor | src/tilecache.ts:7-11 | A tile at slot (x, y) with the empty key and no texture. |
| TileCache.Tile.Download | src/tilecache.ts:13-32 | Records the key first. Fails exactly when a texture is still attached, disposed or not. Otherwise it starts loading the asset chosen by the coin. |
| TileCache.Tile.Loaded | src/tilecache.ts:25-28 | The success callback attaches the loaded texture, not disposed. |
| TileCache.Reversed | src/tilecache.ts:66 | `reverse()` puts element k at position n - 1 - k. |
| TileCache.ReversedSameElements | src/tilecache.ts:66 | Reversing keeps the same elements with the same multiplicities. |
| TileCache.TileRectInside | src/tilecache.ts:95-111 | A slot's 256 x 256 viewport lies in the 4096 x 4096 target exactly when the slot is one of the 16 x 16. |
| TileCache.TileRectsDisjoint | src/tilecache.ts:95-111 | Two slots' viewports are disjoint exactly when the slots differ. |
| TileCache.TileRect | src/tilecache.ts:95-111 | The viewport and scissor box of slot (x, y): left 256x, bottom 256y, 256 wide and high. |
| TileCache.BitOr | src/tilecache.ts:125-128 | JavaScript's bitwise or on non-negative integers, bit by bit from the lowest. |
| TileCache.Log2Bits | src/tilecache.ts:128 | `Math.log2(size)` truncated to an integer: the floor of the logarithm for sizes of at least 1, and 0 for the rest. |
| TileCache.EncodeTileColor | src/tilecache.ts:124-128 | The colour or-ed together from `(t / 16) << 16`, `(t % 16) << 8` and the logarithm, starting from 0. |
| TileCache.BitOrDisjoint | src/tilecache.ts:125-128 | Or-ing a value below 2^k onto a multiple of 2^k adds it. |
| TileCache.Log2BitsBounds | src/tilecache.ts:128 | The integer logarithm of size >= 1 is the k with 2^k <= size < 2^(k+1). |
| TileCache.TileNumber | src/tilecache.ts:124 | The random tile number is one of 0..7. |
| TileCache.EncodeTileColorFields | src/tilecache.ts:124-128 | When the logarithm fits in a byte, the colour is (t / 16) * 65536 + (t % 16) * 256 + log2(size): the or-ed fields do not overlap. |
| TileCache.EncodeTileColorBytes | src/tilecache.ts:124-128 | For a drawn tile number t < 8, the colour divided by 256 gives back t and its low byte is the logarithm, so both can be decoded. |
| TileCache.TileCache.OneStateEach | src/tilecache.ts:134-145 | Under the cache invariant every slot is in exactly one of free, loading, downloaded, rendered, and appears once there. |
| TileCache.TileCache.SlotsConserved | src/tilecache.ts:56-66 | Free, loading, downloaded and rendered slots always number 256 together. |
| TileCache.TileCache.SlotInsideAtlas | src/tilecache.ts:95-111 | Every slot of the pool draws inside the render target. |
| TileCache.TileCache.constructor | src/tilecache.ts:60-78 | 256 slots, created (0,0), (0,1), .., (15,15), are put on the free stack reversed. Eight downloads then take slots (0,0) to (0,7), each keyed (0, 0, 0). The invariant holds. |
| TileCache.TileCache.NewSlots | src/tilecache.ts:61-65 | The nested loops create one fresh, texture-less tile per slot, slot (x, y) at position 16x + y. |
| TileCache.LayoutDistinct | src/tilecache.ts:61-65 | Since each created tile sits at its own position, no tile occurs twice among the slots. |
| TileCache.TileCache.InitiallyStarted | src/tilecache.ts:60-66 | Before its downloads the constructor's state (every slot free, in reverse creation order, none with a texture) satisfies the invariant. |
| TileCache.TileCache.StartDownloads | src/tilecache.ts:70-77 | The eight `downloadTile(0, 0, 0)` calls take slots (0,0) to (0,7), each keyed (0, 0, 0), and keep the invariant. |
| TileCache.InitialValid | src/tilecache.ts:60-66 | All slots free in reverse creation order, with no texture and nothing loading, downloaded or rendered, is a valid cache state. |
| TileCache.FreeToFlightValid | src/tilecache.ts:134-138 | Moving the last free slot, still without a texture, to the pending loads keeps the invariant. |
| TileCache.FlightToDownloadedValid | src/tilecache.ts:139-141 | Answering a pending load with success, attaching its live texture and pushing the slot onto the downloaded stack keeps the invariant. |
| TileCache.FlightToFreeValid | src/tilecache.ts:142-144 | Answering a pending load with an error and pushing its slot, still without a texture, back onto the free stack keeps the invariant. |
| TileCache.DownloadedToRenderedValid | src/tilecache.ts:84-90 | Disposing the last downloaded slot's texture and moving the slot to the rendered ones keeps the invariant. |
| TileCache.FreeToFlight | src/tilecache.ts:135 | Popping the last free slot into the pending loads keeps every slot counted once. |
| TileCache.FlightToDownloaded | src/tilecache.ts:139-141 | Moving the k-th pending load's slot to the downloaded stack keeps every slot counted once. |
| TileCache.FlightToFree | src/tilecache.ts:142-144 | Moving the k-th pending load's slot back to the free stack keeps every slot counted once. |
| TileCache.DownloadedToRendered | src/tilecache.ts:86-87 | Popping the last downloaded slot into the rendered ones keeps every slot counted once. |
| TileCache.TileCache.PopFree | src/tilecache.ts:135 | `freeTiles.pop()` removes the last free slot, which has no texture, and records its load as pending; the invariant is kept and the other stacks are unchanged. |
| TileCache.TileCache.PushDownloaded | src/tilecache.ts:139-141 | The success callback's bookkeeping: the k-th load is answered and its slot pushed onto the downloaded stack, which is a valid state once the slot's texture is attached. |
| TileCache.TileCache.StartDownload | src/tilecache.ts:70-77 | One of the constructor's eight `downloadTile(0, 0, 0)` calls takes the next slot in creation order. |
| TileCache.TileCache.DownloadTile | src/tilecache.ts:134-146 | Fails exactly when no slot is free, and then changes nothing. Otherwise it pops the last free slot, keys it, and starts its load. The invariant is kept. |
| TileCache.TileCache.OnLoadFinished | src/tilecache.ts:139-141 | The success callback: the load is answered, the texture attached and the slot pushed onto the downloaded stack. The invariant is kept. |
| TileCache.TileCache.OnLoadError | src/tilecache.ts:142-144 | The error closure, run as evidently intended on a failed load: the load is answered and the slot goes back onto the free stack. The invariant is kept. |
| TileCache.TileCache.FailedLoadStaysPending | src/tilecache.ts:23-31 | A failed load as written: no callback runs, so the state is unchanged; the load stays pending and its slot is not free. |
| TileCache.FailedLoadsExhaustPool | src/tilecache.ts:134-146 | With failed loads never answered, once all 256 slots are pending nothing is free, downloaded or rendered, so every later `downloadTile` finds the free stack empty. |
| TileCache.TileCache.Update | src/tilecache.ts:84-90 | Draws only the most recently downloaded slot, if any, into its rectangle inside the target, which then shows that slot's texture image. The slot is then rendered and is not returned to the pool. The invariant is kept. |
| TileCache.TileCache.RenderIntoCache | src/tilecache.ts:92-119 | Draws the texture into the slot's rectangle and disposes it. With no texture it paints the slot untextured and fails at `dispose`. |
| TileCache.TileCache.GetEncodedTileColor | src/tilecache.ts:121-132 | Returns the colour cached under the key if there is one, unchanged. Otherwise it encodes a fresh random tile number with the size's logarithm and caches the result under the key. |
| Clipmap.NewPoint | src/clipmap.ts:3-7 | A `Point` keeps its coordinates rounded with `Math.round`. |
| Clipmap.Start | src/clipmap.ts:60 | `-Math.floor(width / 2)`: the first loop coordinate's offset. |
| Clipmap.GridPoint | src/clipmap.ts:65-67 | The point visited at loop position (x, y): ((x + start) * 2^level, (y + start) * 2^level). |
| Clipmap.Iterations | src/clipmap.ts:63-64 | How often each loop of a nest runs: `width` times, or never for a negative width. |
| Clipmap.RowOrder | src/clipmap.ts:64-67 | The points the inner loop visits for row x, y ascending from 0. |
| Clipmap.GridOrder | src/clipmap.ts:63-67 | The points the first n rows of a loop nest visit, row by row. |
| Clipmap.LevelOrder | src/clipmap.ts:63-67 | All the points one loop nest of a level visits, in visit order. |
| Clipmap.AddPoint | src/clipmap.ts:68-69 | One visit: a present point is skipped, a new one gets the current size as its index. |
| Clipmap.InsertAll | src/clipmap.ts:63-71 | The dictionary after visiting a sequence of points in order, one `AddPoint` each. |
| Clipmap.Build | src/clipmap.ts:13-87 | The helper on dictionary contents: nothing for a negative level; otherwise this level's first nest, the finer levels, then this level's second nest. |
| Clipmap.Round | src/clipmap.ts:4-7 | `Math.round`: the integer within half below and under half above. It is the identity on integers. |
| Clipmap.RoundedGridPoint | src/clipmap.ts:65-67 | The rounded, then re-rounded, loop coordinates are the exact lattice point. |
| Clipmap.Dictionary.constructor | src/clipmap.ts:93 | A new dictionary is empty. |
| Clipmap.Dictionary.SetValue | src/clipmap.ts:69 | Stores the value under the key. |
| Clipmap.InsertAllKeys | src/clipmap.ts:63-71 | A loop nest adds exactly the points it visits as keys. |
| Clipmap.InsertAllSize | src/clipmap.ts:68-69 | Each visit adds at most one entry. |
| Clipmap.InsertAllGrows | src/clipmap.ts:68-69 | A loop nest only inserts. Existing keys keep their index, and each new key gets an index from the old size up to the new. |
| Clipmap.InsertAllDense | src/clipmap.ts:68-69 | If the indices were exactly 0..n-1, each once, they still are. |
| Clipmap.InsertAllPresent | src/clipmap.ts:82 | Visiting points that are all present changes nothing. |
| Clipmap.GridOrderLength | src/clipmap.ts:63-64 | A loop nest visits n x width points after n rows. |
| Clipmap.LevelOrderMembers | src/clipmap.ts:59-67 | A level visits exactly the points ((x + start) * 2^level, (y + start) * 2^level) for 0 <= x, y < width. |
| Clipmap.BuildKeys | src/clipmap.ts:58-86 | The helper adds exactly the points of levels 0..level; a negative level adds nothing. |
| Clipmap.BuildContainsLattice | src/clipmap.ts:59-74 | Every lattice point of every level 0..level ends up in the dictionary. |
| Clipmap.BuildGrows | src/clipmap.ts:58-86 | The helper never overwrites, and every new point's index is at least the initial size. |
| Clipmap.BuildDense | src/clipmap.ts:58-86 | Dense indices 0..n-1 stay dense through the helper. |
| Clipmap.SecondPassAddsNothing | src/clipmap.ts:77-85 | The second loop nest of a level changes nothing. |
| Clipmap.BuildSize | src/clipmap.ts:63-74 | The dictionary grows by at most (level + 1) x width^2 entries. |
| Clipmap.CoarserFirst | src/clipmap.ts:63-74 | Every point first inserted at a level gets a smaller index than every point first inserted at a finer level. |
| Clipmap.InsertLevel | src/clipmap.ts:63-71 | The loop nest of a level inserts its points row by row, in visit order. |
| Clipmap.InsertRow | src/clipmap.ts:64-70 | The inner loop inserts row x in visit order. Each new point gets index `size()`, and a present point is skipped. |
| Clipmap.BuildGridHelper | src/clipmap.ts:13-87 | A negative level returns undefined and leaves the dictionary unchanged. Otherwise the dictionary ends as `Build` says and `[]` is returned. |
| Clipmap.BuildGrid | src/clipmap.ts:89-95 | Runs the helper on a new empty dictionary; undefined for a negative level, `[]` otherwise. |
| Clipmap.BuildGridContents | src/clipmap.ts:89-95 | The dictionary `buildGrid` builds holds exactly the points of levels 0..level, indexed 0..n-1, each index once. |

## Findings

| source | as written | input that shows it | evidently intended | confidence | as-written member | corrected member |
|---|---|---|---|---|---|---|
| src/tilecache.ts:30 | The error closure of `downloadTile` (lines 142-144) is passed as the third argument of `TextureLoader.load(url, onLoad, onProgress, onError)`, the progress callback, and no error callback is given. A failed load therefore runs nothing: the slot stays pending and never returns to `freeTiles`. | Any load that fails, for example a missing asset. After 248 such failures following the constructor's 8 pending loads, all 256 slots are pending and every `downloadTile` pops from an empty free stack and throws. | On a failed load the closure runs and returns the slot to `freeTiles`. | not executed; rests on three.js's documented signature of `TextureLoader.load`, whose progress callback image loading does not call | TileCache.TileCache.FailedLoadStaysPending, TileCache.FailedLoadsExhaustPool | TileCache.TileCache.OnLoadError |

## Left out

- Rendering and three.js calls are not modelled: render targets, scenes, cameras, `setViewport`, `render`, `setRenderTarget`, `clearColor`, materials and filters. Only the index arithmetic and bookkeeping around them are kept. A draw is recorded as what the slot shows (`TileCache.atlas`).
- `TileCache.TileCache.RenderIntoCache`: the restore of the old viewport, `console.log` and the scissor test flag are not modelled (no observable state in the model).
- `Renderer.globalToLocal` (src/quadtree.ts:87-94) is floating-point coordinate scaling outside the modelled core.
- The `texture` getter (src/tilecache.ts:80-82) only exposes the render target.
- Quadtree.VectorCache: the scratch vectors are values, not shared `Vector3` objects. Within one `getTiles` call a slot is never reused, because the index only grows until the next `reset`, so no aliasing is lost. `GetTiles` takes the pool as a parameter instead of the module-level instance.
- Quadtree.GetTiles: the stack loop lives in `Descend` (from a given start node) and the four pushes in `PushQuarters`. The behaviour is unchanged; this keeps each proof small.
- Quadtree.Renderer.Update: the final `_render()` call is left out (rendering).
- Quadtree: floating-point rounding is not modelled. Camera coordinates are exact reals, and node coordinates are integers, exact in doubles for this tree.
- TileCache.Log2Bits: sizes are integers. For a size in (0, 1) the truncated logarithm is 0 or a negative integer (-1 for sizes in (1/4, 1/2], which sets every bit of the colour); these sizes are not modelled.
- TileCache.Log2Bits: the double rounding of `Math.log2` is not modelled. The model takes the exact floor, but for sizes just below a large power of two the double result rounds up (2^50 - 1 gives 50, not 49). The two agree on the quadtree's sizes 1 to 1024.
- TileCache.TileCache.constructor: the eight identical `downloadTile(0, 0, 0)` calls are each a call of `StartDownload`, a wrapper around `DownloadTile` that carries the state between calls.
- TileCache.Tile.Download: the source's `this.texture = null` after the check is not modelled as a write; on that path the texture is already null.
- TileCache.TileCache.DownloadTile: the pending load is recorded when the slot is popped, before `download` writes the key. Nothing reads the key, so the order of the two steps cannot be observed.
- TileCache.TileCache.Update: the source's `while` breaks at the end of its first pass, so it is an `if` here.
- TileCache: textures are values (`Texture(url, disposed)`) held in the tile's field; the loader's network I/O and timing are the environment's choice of `OnLoadFinished` / `OnLoadError` calls, where a failed load as written calls neither.
- TileCache.TileCache.GetEncodedTileColor: requires `0 <= random < 1`, which is what `Math.random()` returns.
- Clipmap.InsertLevel: the inner loop of each nest is the separate method `InsertRow`. Both nests of `buildGridHelper` are the same code, so both are `InsertLevel`.
- Clipmap.BuildGrid: the source discards the dictionary it builds and returns only the helper's result. The model also returns the dictionary, so that its contents can be stated.
- Clipmap: `level` and `width` are integers and coordinates are exact integers. Fractional levels, where `2 ** level` is not an integer and rounding matters, are not modelled, and neither are levels where `(x + start) * 2 ** level` overflows a double: from level 1024 on `2 ** level` is Infinity, `0 * Infinity` is NaN and every other multiple is ±Infinity, so the source stores far fewer keys than the lattice (`buildGrid(1024, 5)` stores 9 at level 1024, not 25). `BuildKeys`, `BuildContainsLattice` and `BuildGridContents` hold for the exact integers only.
- Quadtree.PlacedMesh: three.js's `setHex` floors the colour it stores, while the mesh's `color` here keeps the unfloored value from the colour cache. The colour cache itself is modelled exactly.
- `src/scenes.ts` calls `buildGeometry`, which `src/clipmap.ts` does not define; it is not part of this model.
