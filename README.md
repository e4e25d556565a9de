# Lee & Richards surface area: contacts, cell lists, slices and arcs

This project models the core of a Lee & Richards solvent accessible
surface area calculation (Sasalib/FreeSASA). The molecule is cut into
slices of thickness `delta`. The atoms a plane cuts become circles. Each
circle's exposed arc is the free part of the circle after the arcs its
neighbours occlude are merged. Exposed arc times circle radius times a
slab weight is added to the area of the atom.

The model covers:

- the brute-force contact search (`sasa_get_contacts`);
- the Verlet cell-list neighbour table of `src/nb.c`: flat cell indices,
  the clamped forward stencil, per-cell atom lists, the symmetric
  adjacency table with chunked buffers and cached offsets, and the
  membership lookup;
- the work on one slice (`sasa_add_slice_area`): selecting the cut atoms,
  the index maps `idx`/`xdi`, restricting the contact lists to the slice,
  and accumulating into `sasa`;
- the burial and skip logic of `sasa_exposed_arcs`;
- the in-place, recursive arc union `sasa_sum_angles`: the arcs it
  returns are pairwise apart and together shadow exactly the points of
  the input arcs, modulo whole turns; a full cover is reported as such;
- the set-up of `sasalib_lee_richards`, the slice loops, and the slice
  tiling and reduction of the threaded variant.

The model works over `real` and the constant `PI`. `sqrt`, `acos` and
`atan2` are fields of a `Libm` value given as a parameter, and the
geometry feeding the cell list is a `layout` parameter. Wherever the C
code changes arrays in place, the model is imperative Dafny: arrays,
classes with `modifies` frames, and loops with invariants. Each method is
proved against a specification function or predicate, and the lemmas
beside those state what the source promises.

Modules, following the source:

| module | file | models |
|---|---|---|
| `Geometry` | geometry.dfy | coordinates, `Libm`, the pair test (axis pre-filter, then squared distance) |
| `Contacts` | contacts.dfy | `sasa_get_contacts` |
| `Arcs` | arcs.dfy | `sasa_sum_angles` |
| `Exposure` | exposure.dfy | `sasa_exposed_arcs` |
| `Slices` | slices.dfy | `sasa_add_slice_area` |
| `Driver` | driver.dfy | `sasalib_lee_richards`, slice loops, thread tiling and reduction |
| `Cells` | cells.dfy | `cell_index`, `fill_nb`, `get_nb`, `fill_cells`, `cell_list_new` |
| `Neighbours` | neighbours.dfy | `freesasa_nb_alloc`, `chunk_up`, `nb_add_pair`, `nb_calc_cell_pair`, `nb_fill_list`, `freesasa_nb_new`, `freesasa_nb_contact`, `max_array` |
| `NeighbourFacts` | facts.dfy | what the finished neighbour table means: sound, symmetric, complete, in agreement with the brute-force contacts |

## Model

| member | source | states |
|---|---|---|
| Geometry.PrefilterSound | src/sasa_lr.c:429-435 | The axis pre-filter changes nothing: a pair passes the whole test exactly when the squared centre distance is below the squared sum of the radii. |
| Geometry.PairTestSymmetric | src/nb.c:330-337 | The pair test gives the same answer whichever atom comes first. |
| Contacts.UptoMembers | src/sasa_lr.c:418-441 | The list an atom has after the scan, restricted to atoms below k, holds exactly the atoms below k that touch it. |
| Contacts.UptoIncreasing | src/sasa_lr.c:418-441 | Each contact list is strictly increasing, so no atom is listed twice, and every entry is below the bound. |
| Contacts.TouchSymmetric | src/sasa_lr.c:421-435 | The contact test of atoms i and j does not depend on their order. |
| Contacts.NeighbourExactly | src/sasa_lr.c:429-441 | j is in the list of i exactly when i != j and dx² + dy² + dz² < (ri + rj)². |
| Contacts.NeighboursShape | src/sasa_lr.c:436-440 | The contact relation is symmetric (j in nb[i] iff i in nb[j]), irreflexive, and every list is strictly increasing. |
| Contacts.GrownStep | src/sasa_lr.c:434-441 | One column of the scan: a touching pair appends j to nb[i] and i to nb[j], raising both counts; any other pair leaves everything unchanged. |
| Contacts.ScanRow | src/sasa_lr.c:421-442 | Row i of the scan extends the lists built so far to all columns j > i. |
| Contacts.GetContacts | src/sasa_lr.c:406-444 | All lists are cleared, then every nb[k] is the full contact list of atom k and nn[k] is its length. |
| Arcs.CoversTrans | src/sasa_lr.c:368-373 | Covering composes: an arc covering one that covers a third arc covers the third arc. |
| Arcs.CoversWider | src/sasa_lr.c:368-373 | An arc that covers another is at least as wide as it. |
| Arcs.HalfSumAtLeast | src/sasa_lr.c:399-402 | With positive half-widths, the buried sum is at least any one half-width. |
| Arcs.ApartFromCentred | src/sasa_lr.c:358-364 | Once the difference of the centres is brought into [-PI, PI], a difference above ai + aj means the arcs are apart on the whole circle. |
| Arcs.Recenter | src/sasa_lr.c:358-363 | The re-centring loop terminates with bj - bi in [-PI, PI], and bj has moved by a whole number of turns. |
| Arcs.Join | src/sasa_lr.c:368-373 | The joint interval covers both inputs, its ends are ends of the inputs, and its half-width is at least either input's. |
| Arcs.WithinJoin | src/sasa_lr.c:364-373 | The hull of two arcs that meet adds no point outside their union. |
| Arcs.JoinWithin | src/sasa_lr.c:358-373 | The hull of live arc i and the re-centred live arc j lies inside the union of the inputs. |
| Arcs.WideFull | src/sasa_lr.c:372-374 | An arc inside the union with half-width above PI makes the union the whole circle, which justifies the early return 0. |
| Arcs.Wrap | src/sasa_lr.c:375-376 | The wrapped centre differs from the hull's by at most one turn and lies in [-PI, PI] for centres in [-3·PI, 3·PI]. |
| Arcs.WithinMoved | src/sasa_lr.c:358-376 | Moving an arc by whole turns, as the re-centring and the wrap do, keeps it inside the union. |
| Arcs.ShadowedShift | src/sasa_lr.c:358-363 | Whether an angle lies on the union does not depend on the turn it is written in. |
| Arcs.InputsWithin | src/sasa_lr.c:343-347 | Before any merge each arc lies inside the union of the inputs. |
| Arcs.MergedWithin | src/sasa_lr.c:366-379 | Replacing arc i by an arc of the union and excluding j keeps every live arc inside the union. |
| Arcs.ShadowedTrans | src/sasa_lr.c:385-397 | An angle on the union of arcs that each lie inside the inputs' union is on the inputs' union. |
| Arcs.WithinTrans | src/sasa_lr.c:385-397 | Hence tilings and full covers for such arcs carry over to the inputs. |
| Arcs.Kept | src/sasa_lr.c:387-395 | The live arcs in their original order: as many as the arcs minus the excluded ones. |
| Arcs.CountNone | src/sasa_lr.c:343-347 | The exclusion count is 0 exactly when no flag is set. |
| Arcs.CountSet | src/sasa_lr.c:378-380 | Excluding one more arc raises the count by exactly one. |
| Arcs.CountTwoClear | src/sasa_lr.c:348-381 | While two arcs are live, at most n - 2 are excluded, so a merge keeps n_exc <= n_buried - 1. |
| Arcs.KeptAt | src/sasa_lr.c:389-395 | A live arc at position k is copied to position k minus the exclusions before it. |
| Arcs.KeptFrom | src/sasa_lr.c:389-395 | Every compacted entry comes from one live arc, the same one in both arrays. |
| Arcs.KeptWithin | src/sasa_lr.c:387-395 | The compacted arcs lie inside the union of the inputs. |
| Arcs.KeptPositive | src/sasa_lr.c:387-396 | The arcs handed to the recursive call have positive half-widths. |
| Arcs.Initially | src/sasa_lr.c:343-347 | Before any merge, no arc is excluded, every arc stands for itself, and all half-widths are positive. |
| Arcs.MergeStep | src/sasa_lr.c:364-379 | A merge keeps every input arc covered by some live arc, sets a[j] to 0 and excludes j, and raises the count by one while leaving it at most n - 1. |
| Arcs.Absorb | src/sasa_lr.c:355-379 | Two live arcs are merged exactly when they are not apart on the circle; the re-centred copy of j then lies within PI of i and meets it. `wide` holds exactly when the merged half-width exceeds PI, and then the inputs cover the whole circle. A merge replaces i by the hull, its centre wrapped, and excludes j with half-width 0; nothing else changes. Without a merge the arrays are untouched. |
| Arcs.MergeInto | src/sasa_lr.c:366-379 | Arc i is overwritten by the hull of i and the re-centred j. `wide` holds exactly when the hull's half-width exceeds PI; then i keeps the unwrapped centre, nothing is excluded, and the inputs cover the whole circle. Otherwise the centre is wrapped, a[j] becomes 0, j is excluded, nothing else changes, and every live arc still covers its inputs and lies inside their union. |
| Arcs.SumAngles | src/sasa_lr.c:338-404 | With no arcs the result is 2·PI. The early return 0 happens only when the inputs cover the whole circle. Otherwise the result is 2·PI minus twice the half-widths of a tiling of the union of the inputs: positive arcs, pairwise apart, each input covered by one of them, every point of them on some input. Inputs already pairwise apart give 2·PI minus twice their own half-widths. |
| Arcs.Unmerged | src/sasa_lr.c:386-403 | Without a merge, the inputs are a tiling of their own union: positive, pairwise apart, covering and lying inside themselves. |
| Arcs.PairwiseFromRows | src/sasa_lr.c:348-383 | An outer pass with no merge leaves the arcs pairwise apart. |
| Arcs.MergeAll | src/sasa_lr.c:343-383 | `wide` is reported only when the inputs cover the whole circle. Otherwise every input is covered by a live arc, every live arc lies inside the union of the inputs, and n_exc == n_overlap == the number excluded <= n - 1. With no overlap the arrays are unchanged and pairwise apart. Inputs already pairwise apart give no overlap. |
| Arcs.FreeAngle | src/sasa_lr.c:399-403 | When nothing overlaps, the final arcs are the inputs themselves, a tiling of their own union, and the result is 2·PI minus twice their half-widths. |
| Arcs.Sweep | src/sasa_lr.c:348-382 | One arc i absorbs every live arc it meets. `wide` is reported only when the inputs cover the whole circle. Inputs are kept covered and live arcs inside their union. The loop stops once all but one arc are excluded. If i was apart from every live arc, nothing is merged and nothing changes. |
| Arcs.Row | src/sasa_lr.c:351-381 | One pass of the outer loop keeps the merge invariants. The pass stops the loop only once all but one arc are excluded. Until the first merge, the rows checked are apart, and inputs already pairwise apart are never merged. |
| Arcs.RemergeCovers | src/sasa_lr.c:386-397 | What the recursive call covers, together with the merges of this call, covers every input arc. |
| Arcs.Compact | src/sasa_lr.c:387-395 | The compacted arrays hold exactly the live arcs in their original order, n - n_exc of them, all with positive half-widths. |
| Arcs.Remerge | src/sasa_lr.c:385-397 | The recursive call on the compacted live arcs returns 0 only when the inputs of this call cover the whole circle. Otherwise it returns 2·PI minus twice the half-widths of a tiling of those inputs' union, with fewer arcs than inputs. |
| Arcs.Remerged | src/sasa_lr.c:385-397 | A full cover or a tiling for the kept arcs, which lie inside the union of the inputs and cover them, is one for the inputs. |
| Arcs.FreeLengthOf | src/sasa_lr.c:372-403 | Both outcomes of the merge are an angle left free by the inputs: 0 for a full cover, otherwise 2·PI minus a tiling's width. |
| Exposure.DistSymmetric | src/sasa_lr.c:290-291 | The planar distance of two circles does not depend on their order. |
| Exposure.ExposedArcs | src/sasa_lr.c:270-336 | For each circle, the exposed arc is at most 2·PI. It is 0 when the circle lies inside a neighbour, and exactly 2·PI when nothing overlaps it. Unless 0, it is shortened by every partial neighbour's occluded arc. When the circle lies inside no related circle, it is exactly the angle that the occluded arcs of its partial neighbours leave free. When only a circle that lists it contains it, it is either 0 or that angle. Entries past the slice are unchanged. |
| Exposure.ArcOf | src/sasa_lr.c:280-314 | One circle's exposed arc meets those promises, and every circle flagged buried really lies inside a related circle. |
| Exposure.MeasuredDone | src/sasa_lr.c:313-314 | A circle inside none of its neighbours, whose exposed arc is what SumAngles returns for its occluded arcs, meets every promise. |
| Exposure.TiledBound | src/sasa_lr.c:313-314 | The free angle of a tiling of the occluded arcs is at most 2·PI minus any one partial neighbour's occluded arc. |
| Exposure.ZeroDone | src/sasa_lr.c:283-285 | A circle inside a related circle, skipped with exposed arc 0, meets every promise. |
| Exposure.Occluders | src/sasa_lr.c:287-312 | n_buried <= nn[i]. The walk stops exactly when i lies inside a neighbour. Otherwise a and b hold, in order, the occluded arcs (acos, atan2) of exactly the partial neighbours. |
| Exposure.Occluded | src/sasa_lr.c:287-312 | The arcs collected for a circle: one per partial neighbour, at most one per neighbour, each with positive half-width. |
| Exposure.OccludedHas | src/sasa_lr.c:303-311 | The arc of every partial neighbour is among those collected. |
| Exposure.OccludedSome | src/sasa_lr.c:303-311 | Every collected arc comes from a partial neighbour, so a circle with a collected arc is not isolated. |
| Exposure.Visit | src/sasa_lr.c:288-311 | A neighbour is skipped when not in contact, ends the walk when i lies inside it, and is flagged when it lies inside i. Otherwise its occluded arc is appended at index n_buried. |
| Exposure.SlottedSkip | src/sasa_lr.c:293-301 | A neighbour that occludes no proper arc leaves the stored arcs as they are. |
| Exposure.SlottedAdd | src/sasa_lr.c:304-311 | Storing the arc of a partial neighbour at index n_buried keeps the buffers equal to the arcs of the partial neighbours seen. |
| Exposure.WitnessSelf | src/sasa_lr.c:294-296 | Flagging i, inside a neighbour, is justified: i lies inside a related circle. |
| Exposure.WitnessOther | src/sasa_lr.c:298-300 | Flagging a neighbour that lies inside i is justified: it lies inside a related circle. |
| Slices.SelectedMembers | src/sasa_lr.c:224-238 | An atom is selected exactly when the plane cuts it (abs(z_i - z) < r_i). |
| Slices.SelectedIncreasing | src/sasa_lr.c:232-234 | idx is strictly increasing and every entry is an atom index. |
| Slices.RankInverse | src/sasa_lr.c:232-233 | idx and xdi are inverse: xdi[idx[k]] == k, and idx[xdi[j]] == j for every cut atom j. |
| Slices.RankMonotone | src/sasa_lr.c:232-234 | The slice index is strictly increasing on the cut atoms. |
| Slices.LocalMembers | src/sasa_lr.c:246-256 | Circle p is a neighbour of circle q exactly when atom idx[p] is a neighbour of atom idx[q]. |
| Slices.LocalIncreasing | src/sasa_lr.c:249-255 | The restricted list stays increasing and names only circles of the slice. |
| Slices.IncreasingBound | src/sasa_lr.c:219 | An increasing list of indices below b has at most b entries. |
| Slices.CircleRadiusPositive | src/sasa_lr.c:226-228 | A plane closer to the centre than the radius cuts a circle of positive radius. |
| Slices.SliceValid | src/sasa_lr.c:246-259 | The slice handed to the arc code is well formed: every neighbour is another circle of the slice, and no circle has more neighbours than there are circles. |
| Slices.CircledExtend | src/sasa_lr.c:227-234 | Appending the circle of a cut atom keeps the circle buffers describing exactly the atoms selected so far. |
| Slices.PlaceCircle | src/sasa_lr.c:227-232 | Writes the centre, radius and weight of a cut atom at position n_slice. |
| Slices.Pick | src/sasa_lr.c:224-238 | One atom of the selection loop: a cut atom is appended and flagged in the slice, and any other atom is flagged not in the slice. |
| Slices.SelectSlice | src/sasa_lr.c:223-239 | idx[..n_slice] is exactly the cut atoms in order, with their circles. in_slice[j] is set exactly for cut atoms, and xdi maps each cut atom to its slice index. |
| Slices.RestrictLists | src/sasa_lr.c:240-256 | nb_slice[k] is the list of atom idx[k] filtered to cut atoms and renumbered through xdi, in order, and nn_slice[k] is its length. |
| Slices.RestrictRow | src/sasa_lr.c:249-255 | The inner loop keeps exactly the cut neighbours, each under its slice index, in order, and counts them. |
| Slices.Built | src/sasa_lr.c:223-259 | The buffers filled by the first loops describe exactly the slice at height z. |
| Slices.AddedStep | src/sasa_lr.c:262-264 | Circle i adds to atom idx[i] only, and adds exposed arc times radius times weight. |
| Slices.Accumulate | src/sasa_lr.c:262-264 | Each atom's area grows by exactly its gain from the slice; atoms outside the slice gain nothing. |
| Slices.AddSliceArea | src/sasa_lr.c:212-268 | The slice's exposed arcs meet every promise of sasa_exposed_arcs. Each atom's area grows by exactly its gain, and no other entry changes. |
| Driver.Extent | src/sasa_lr.c:116-127 | The folds bound every atom's z and radius, and each is its start value (-1e50, 1e50, 0) or the value of some atom. |
| Driver.StepsSpec | src/sasa_lr.c:151 | The loop `z = z0; z < zEnd; z += delta` visits exactly the heights z0 + k·delta below zEnd. |
| Driver.StepsIs | src/sasa_lr.c:151 | The step count is s exactly when step s - 1 is below zEnd and step s is not. |
| Driver.TotalAppend | src/sasa_lr.c:194-199 | Summing areas over two runs of slices is the sum of the two totals. |
| Driver.SliceLoop | src/sasa_lr.c:151-153 | One slice is cut at each height of the range, in order, and each atom's area grows by the total of its gains. |
| Driver.TilesPartition | src/sasa_lr.c:166-178 | The thread tiles start at 0, each ends where the next begins, and the last ends at the slice count (0 when there are no slices). |
| Driver.HeightsSlice | src/sasa_lr.c:173-177 | A loop started at step lo that runs hi - lo steps visits steps lo to hi of the serial loop. |
| Driver.StepsCeil | src/sasa_lr.c:166 | The serial loop runs ceil((max_z - min_z)/delta) steps when that count is positive, and none otherwise. |
| Driver.InnerThread | src/sasa_lr.c:175 | A thread other than the last runs exactly n_perthread steps. |
| Driver.ThreadSlicesSome | src/sasa_lr.c:166-178 | When there are slices, thread t runs exactly the steps of its tile. |
| Driver.CDivNonpositive | src/sasa_lr.c:167 | C division rounds a nonpositive slice count toward zero, so the last thread starts at or above that count. |
| Driver.ThreadSlicesNone | src/sasa_lr.c:166-178 | Without slices to cut, no thread runs a step. |
| Driver.ThreadSlices | src/sasa_lr.c:166-207 | Thread t's own slice loop visits exactly the heights of tile t of the serial loop. |
| Driver.TileMono | src/sasa_lr.c:173 | Later tiles start later. |
| Driver.Reduce | src/sasa_lr.c:194-199 | Each atom's area grows by the sum of the per-thread areas. |
| Driver.ComputedAppend | src/sasa_lr.c:194-199 | Slices computed in two consecutive runs together form one computed run. |
| Driver.RunThread | src/sasa_lr.c:169-209 | A thread starts from zeroed areas of its own and ends with the total of its tile's slices, which are exactly tile t of the serial heights. |
| Driver.DoThreads | src/sasa_lr.c:160-200 | The threaded run cuts the same heights as the serial loop, and each area grows by the total of those slices' gains. |
| Driver.ContactsShaped | src/sasa_lr.c:133-134 | The contact lists have one entry per atom, all indices in range and nn equal to the lengths, as the slice code needs. |
| Driver.Prepare | src/sasa_lr.c:116-130 | Radii are grown by the probe and every area is set to 0. min_z and max_z are the lowest and highest centres, widened by the largest radius, with min_z raised by delta/2. |
| Driver.LeeRichards | src/sasa_lr.c:94-157 | Empty coordinates give a warning and leave sasa unwritten. Otherwise the status is Success, or a warning when several threads are asked for without thread support. The slices are those of the grown radii's range (none below one thread), and each area is the total of its gains. |
| Cells.IndexBound | src/nb.c:82-88 | cell_index maps in-range (ix, iy, iz) into [0, nx·ny·nz). |
| Cells.IndexDecode | src/nb.c:82-88 | cell_index is one to one on the grid: decoding the index gives the position back. |
| Cells.DecodeIndex | src/nb.c:82-88 | Every flat index below nx·ny·nz is the index of exactly one grid position, so get_nb reaches every cell. |
| Cells.IndexInjective | src/nb.c:82-88 | Distinct grid positions have distinct cell indices. |
| Cells.StencilMembers | src/nb.c:96-111 | A cell q is listed by p exactly when q lies within one step of p on each axis and its offset components sum to >= 0. Every listed index lies on the grid. |
| Cells.StencilLength | src/nb.c:91-117 | A cell lists itself, and 1 <= n_nb <= 17, the size of its 17-slot neighbour array. |
| Cells.Coverage | src/nb.c:108 | Of two cells next to each other, at least one lists the other. |
| Cells.ListedBothWays | src/nb.c:105-108 | The forward test does not prevent double counting: cells (1,0,0) and (0,1,0) of a 2 x 2 x 1 grid list each other. |
| Cells.AtomsInShape | src/nb.c:147-156 | A cell holds exactly the atoms assigned to it, in increasing order. |
| Cells.CountsAddUp | src/nb.c:144-156 | Every atom is in exactly one cell: the cells' atom counts add up to n. |
| Cells.KeepOthers | src/nb.c:122-126 | Filling the next cell extends the prefix of cells whose lists are done and leaves the rest unchanged. |
| Cells.ScanColumn | src/nb.c:104-112 | The innermost loop lists the cells of one column within one step of p, clamped to the grid, that pass the forward test. |
| Cells.ScanPlane | src/nb.c:103-113 | The middle loop lists the same for one plane. |
| Cells.ScanBlock | src/nb.c:95-114 | The clamped loops list exactly the stencil of the unclamped 3x3x3 block. |
| Cells.CellList.FillNb | src/nb.c:91-117 | Stores the stencil of cell p as its neighbour list; every other cell is unchanged. |
| Cells.CellList.GetNb | src/nb.c:120-129 | Every cell's neighbour list is its stencil. |
| Cells.CellList.FillCells | src/nb.c:140-157 | Every cell's atom list is exactly the atoms assigned to it, in index order. |
| Cells.CellList.constructor | src/nb.c:176-191 | A fresh cell list on the given grid, with atom lists from fill_cells and neighbour lists from get_nb. |
| Neighbours.Record | src/nb.c:282-298 | Recording a pair appends j (with d, dx, dy) to i's list and i (with d, -dx, -dy) to j's list. Everything else is unchanged. |
| Neighbours.RecordAllConcat | src/nb.c:354-360 | Recording two runs of pairs one after the other records their concatenation. |
| Neighbours.RecordAllSymmetric | src/nb.c:287-298 | A table built from the empty one is symmetric: each entry has a mirror entry with the same planar distance and negated offsets. |
| Neighbours.SymmetricContacts | src/nb.c:381-391 | In a symmetric table, contact(i, j) == contact(j, i) and contact(i, i) == 0. |
| Neighbours.RecordAllHas | src/nb.c:287-288 | Every recorded pair puts each atom in the other's list. |
| Neighbours.RecordAllOnly | src/nb.c:287-288 | Every entry of a table built from the empty one comes from a recorded pair, in one of its two directions. |
| Neighbours.MaxOfBounds | src/nb.c:194-201 | The fold is the largest of 0 and the elements: at least each of them, and equal to 0 or to one of them. |
| Neighbours.MaxArray | src/nb.c:194-201 | max_array returns the fold of fmax from 0 over the radii. |
| Neighbours.Adjacency.constructor | src/nb.c:204-226 | Every nn is 0, every capacity NB_CHUNK, and the table is empty. |
| Neighbours.Adjacency.ChunkUp | src/nb.c:248-263 | Capacity grows by exactly NB_CHUNK when nn exceeds it, and by nothing otherwise; it stays a multiple of 32 and at least nn. Existing slots and other atoms are unchanged. |
| Neighbours.Adjacency.Put | src/nb.c:287-298 | Writes one entry of one side: atom, planar distance and offsets at one slot. |
| Neighbours.Adjacency.Append | src/nb.c:282-298 | One side of nb_add_pair: nn[i] grows by one and i's list gains the entry; other atoms keep their capacity. |
| Neighbours.Adjacency.AddPair | src/nb.c:270-299 | nn[i] and nn[j] rise by one, the table records the pair symmetrically, and every other atom is unchanged. |
| Neighbours.Adjacency.CompareAtom | src/nb.c:319-340 | Atom ia is compared with the atoms of cj from j onwards, and each one passing the pair test is recorded in order. |
| Neighbours.Adjacency.CalcCellPair | src/nb.c:306-342 | Records the pairs the loops find, in order; within one cell only positions i < j are compared. |
| Neighbours.Adjacency.FillCell | src/nb.c:355-359 | Cell ic is compared with each cell of its neighbour list, in list order. |
| Neighbours.Adjacency.FillList | src/nb.c:348-361 | Every cell is compared with each of its neighbour cells, in cell order. |
| Neighbours.Adjacency.NbNew | src/nb.c:363-379 | Returns NULL exactly on null coordinates or radii. Otherwise the result is a fresh, well-formed table for n atoms: the one nb_fill_list builds on the cell list with cells twice the largest radius. |
| Neighbours.Adjacency.Contact | src/nb.c:381-391 | Returns 1 exactly when j is among the first nn[i] entries of nb[i], i.e. when j is listed for i in the table. |
| Neighbours.ComparePair | src/nb.c:326-337 | A hit is exactly the pair test and yields the planar offsets dx, dy. |
| Neighbours.CellsPairable | src/nb.c:318-327 | Any two cells of a grid can be compared: within one cell no atom meets itself (ia != ja). |
| Neighbours.GridCellsOk | src/nb.c:176-191 | The cell list cell_list_new builds has in-range neighbour cells and atom lists nb_fill_list can read. |
| Neighbours.FillLinksFound | src/nb.c:336-338 | Every pair nb_fill_list records is a contact with the offsets of its second atom from its first. |
| Neighbours.ColLinksHas | src/nb.c:325-339 | The inner loop records every atom of its range that passes the pair test. |
| Neighbours.FillLinksHas | src/nb.c:354-360 | nb_fill_list keeps what it finds for every cell below ic. |
| NeighbourFacts.TableSound | src/nb.c:282-298 | Every entry of the table names a contact, with the offsets from its atom and their planar distance. |
| NeighbourFacts.TableOnlyContacts | src/nb.c:336-338 | The table lists only pairs that pass the pair test. |
| NeighbourFacts.TableSymmetric | src/nb.c:282-298 | contact(i, j) == contact(j, i), and no atom is listed for itself. |
| NeighbourFacts.PairRecorded | src/nb.c:318-358 | A touching pair from cells c and d is recorded when d is a neighbour of c; within one cell, when its positions are in order. |
| NeighbourFacts.CompleteDirected | src/nb.c:306-361 | When the cell of b is a neighbour of the cell of a, a touching pair a, b is in both lists. |
| NeighbourFacts.TableComplete | src/nb.c:348-361 | When touching atoms lie in neighbouring cells, every touching pair is in both lists. |
| NeighbourFacts.TableAgrees | src/nb.c:363-379 | Under the same assumption, the table and sasa_get_contacts agree on who is in contact with whom (as sets). |

## Left out

- Floating point: all arithmetic is exact `real`. `z += delta` is modelled as z0 + k·delta, with no rounding.
- `sqrt`, `acos` and `atan2` are uninterpreted fields of `Libm`. The only facts about them are requires: `sqrt` is nonnegative, and positive on positive arguments. The DR weight is computed from them as written.
- Exposure.ExposedArcs: requires what the source only asserts: every occluded arc has positive distance and positive half-width (`assert(a[i] > 0)`, src/sasa_lr.c:346).
- Neighbours.Adjacency.NbNew: requires at least one atom and a positive largest radius, which the source only asserts (`assert(n > 0)`, src/nb.c:206; `assert(cell_size > 0)`, src/nb.c:371).
- Arcs.SumAngles: proves that the final arcs tile the union of the inputs, but not that their total width equals the length of that union, which needs a measure on the circle. Arcs are closed intervals; the DEBUG block tests open ones, which changes no length.
- Arcs.Sweep, Arcs.MergeAll, Arcs.SumAngles: the early `return 0` is stated by what it means, a full cover of the circle; only Absorb and MergeInto state it as the hull's half-width exceeding PI.
- Exposure.ExposedArcs: when a circle lies only inside a circle that lists it but is not listed by it, the result is stated as 0 or the free angle; which one depends on the order of the circles.
- Slices.AddSliceArea, Driver.SliceLoop, Driver.DoThreads, Driver.LeeRichards: carry the same assertion about every slice of the range as a requires.
- `cell_list_bounds` (ceil-based grid sizing, src/nb.c:53-79) and `coord2cell_index` (truncating division, src/nb.c:131-138) are the `layout` parameter: a function from cell size and coordinates to grid dimensions and the cell of each atom. NbNew requires its result to be in range.
- NeighbourFacts.TableComplete and NeighbourFacts.TableAgrees: assume that touching atoms lie in neighbouring cells (`Separated`). With cells twice the largest radius this follows from the floating-point geometry of the layout, which is not modelled.
- NeighbourFacts.TableAgrees: states agreement as membership, not list equality. The forward stencil lists some cell pairs from both sides (Cells.ListedBothWays), so the table can hold a contact twice, whereas the brute-force list holds it once.
- The claim in the comment at src/nb.c:105-107 that the forward stencil avoids double counting is false, and is not proved; see Cells.ListedBothWays.
- Neighbours.Record: a pair whose atoms are out of range or equal leaves the table unchanged. nb_add_pair is never given such a pair, and Adjacency.AddPair requires i != j, as the source asserts.
- Neighbours.Adjacency.AddPair: performs the two sides one after the other. The C code increments both counts first, and the final state is the same.
- Neighbours.Adjacency.FillCell: the inner loop of nb_fill_list, written as its own method.
- Memory management: malloc, realloc, free, VLAs, `cell_list_free` and `freesasa_nb_free`. Growable buffers are sequences of length `capacity` held in arrays, and fresh slots hold zeros where C leaves them undefined.
- The failure paths of allocation (`if (!adj) return NULL`, src/nb.c:369) cannot occur in the model.
- Threads: pthread create/join and `exit(EXIT_FAILURE)` on their failure. The threads of sasa_lr_do_threads run one after another over their own area arrays; the slice tiling and the reduction are modelled.
- Driver.LeeRichards: whether the program was built with thread support is the `pthreads` parameter.
- The DEBUG printing block (src/sasa_lr.c:316-334) and the message text of `sasalib_warn`; a warning is the `Warn` status.
- The coordinate accessors (`sasalib_coord_n`, `sasalib_coord_all`): coordinates are a sequence of `Coord`.
