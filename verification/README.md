# Verified model of the seat service

Dafny proofs about the seat service's algorithmic and stateful cores: the raster recogniser of layout images, the undo/redo history, snapshots and generated layouts, the seat holder protocol, the analytics outbox, the projection of access rights and the merge of metadata.

Run `dafny verify dfyconfig.toml` to check everything.

What is modelled, and where:

- **Recogniser.** `Threshold` proves that the one-pass histogram scan finds the Otsu threshold, against the naive statistic over the pixels. `Grids` defines reachability on a pixel grid and what a breadth-first queue establishes; `Components` labels 8-connected components with it, `Contour` floods the 4-connected exterior and measures the filled silhouette, `ContourProperties` says what the measurements mean, `Candidates` fits every kept component. `Containment`, `StableSort`, `Interpreter` and `InterpreterProperties` cover classification, parents and seat counts. `ContourMeaning`, `ContourFits`, `ExtractionOutcomes`, `InterpreterMeaning` and `InterpreterOutcomes` say the same of sets of cells and pixels, points and distances, without the lists and sums by which it is computed. `Recognizer` is the whole pipeline, with properties of its results that mention no intermediate step.
- **Geometry history.** `GeometryHistory` has the operations as functions of rows and patch entries, `GeometryOutcomes` what they must store, number by number, and `LayoutServices` the service; `Timeline` proves that it refines a stack of whole layouts.
- **Snapshots.** `Snapshot`, `SnapshotRoundTrip` and `SnapshotRows`: restore rebuilds what was saved, up to new ids, column by column.
- **Generated layouts.** `AutoLayout`, `EngineOutcomes`, `Decimal`, `Splitting`, `LayoutRows` and `MaxSeats` follow a number of seats through the plan, the geometry and the rows.
- **Seat holders.** `SeatHolder` gives each transaction as a function of the rows and the log, `SeatOutcomes` what each must do to them, `SeatServices` the service that updates them in place, `SeatLog` runs of whole operations, and `SeatClaims` the two claims with their reads and conditional updates interleaved.
- **Outbox.** `Outbox` is a machine whose steps are the database calls and sends of any number of instances; `OutboxRecords` says in numbers what a step writes to a row; `OutboxProperties` is what all interleavings keep; `OutboxPublishers` is the code of one instance, which takes steps of that machine.
- **Projection and metadata.** `AccessProjections` and `MetaDefaults`.

Conventions. Floating-point numbers are exact reals. `Math.hypot` is a parameter, and square roots are used through their squares only. Database rows are maps, a transaction takes effect as a whole or not at all, and choices that the database makes (the order of an unordered query, fresh ids) are parameters constrained by what the query promises. Every exception is an error value or an outcome of its own. The unique indexes are those of the schema in `src/prisma/generated/internal/class.ts`, line 23.

Where the code differs from what its comments or names promise, the model follows the code:

- Normalisation of a snapshot checks the seat type against the seat statuses, so only STANDARD (by default) and RESERVED survive a restore (`SeatTypeSurvives`).
- The outbox claim does not check again that the next attempt is due (`ClaimIsEarlyWhen`, `EarlyClaimHappens`).
- `deepMergeMeta` returns a falsy override's base as it is, so it is not idempotent on bases such as a number (`MergeIdempotentWhen`). No caller in the service meets this: `prepareMeta` merges into the default object, and the recursive calls have an object for an override.
- Seats are written to the first listed table of their table's name, in an order that the query leaves open (`OwnTableWhenFirstListed`, `OwnTableAlwaysWhen`, `SharedNamesHappen`).
- Concurrent handlers of access messages can leave an older message in place (`OverlapLosesLatest`), and messages of one time are decided by their order (`ConvergesExactlyWhen`).

## Model

| member | source | states |
|---|---|---|
| `Threshold.BinaryThreshold` | src/layout-import/recognizers/raster-components.ts:22-78 | a raster is refused unless it is 1 to 1600 pixels wide and high and has one channel with a value for every pixel; less than 24 levels of contrast gives no threshold on a bright image and an error on any other; every other image gives its Otsu threshold: the first in [darkest, lightest) that minimises the naive within-class scatter, with both classes non-empty |
| `Threshold.Maximise` | src/layout-import/recognizers/raster-components.ts:50-77 | the one-pass scan over the histogram returns that threshold; its zero-weight `continue` is asserted never to be taken |
| `Threshold.Histogram` | src/layout-import/recognizers/raster-components.ts:40-49 | the counts of every grey value, the sum, the least and the greatest value of the pixels |
| `Threshold.TotalIsWithinPlusBetween` | src/layout-import/recognizers/raster-components.ts:59-77 | n times the within-class scatter plus the scanned statistic is a constant of the image |
| `Threshold.BetweenOrdersWithin` | src/layout-import/recognizers/raster-components.ts:66-76 | one threshold has the larger scanned statistic exactly if it has the smaller within-class scatter |
| `Threshold.BothClasses` | src/layout-import/recognizers/raster-components.ts:55-65 | every scanned threshold has a dark and a light pixel |
| `Threshold.DarkStep` | src/layout-import/recognizers/raster-components.ts:57-58 | one histogram cell moves exactly its pixels from light to dark |
| `Threshold.SplitSums` | src/layout-import/recognizers/raster-components.ts:57-70 | a threshold splits the pixels, their sum and their sum of squares without loss |
| `Threshold.OtsuIsGlobal` | src/layout-import/recognizers/raster-components.ts:50-77 | no threshold at all, scanned or not, does better than the one found |
| `Grids.Grid.ClosedUnderPath` | src/layout-import/recognizers/raster-components.ts:119-142 | a set closed under steps contains the end of every path from it |
| `Grids.Grid.Symmetric` | src/layout-import/recognizers/raster-components.ts:128-141 | being joined by a path is symmetric, so a component does not depend on where its search starts |
| `Grids.Grid.WaveFits` | src/layout-import/recognizers/raster-components.ts:97 | the breadth-first queue never holds more cells than the image has pixels |
| `Grids.Grid.WaveEnds` | src/layout-import/recognizers/raster-components.ts:119-142 | a queue whose every cell has been served holds exactly the cells reachable from the root, each once |
| `Components.LabelComponents` | src/layout-import/recognizers/raster-components.ts:89-163 | the total outcome: too complex, too dark, or every component labelled by its number in raster order of first pixels and every useful one recorded with exact size and tight box |
| `Components.LabelComponent` | src/layout-import/recognizers/raster-components.ts:107-142 | the search from an unlabelled dark pixel labels exactly its component and leaves every other label; size and box of the record are exact |
| `Components.Dequeue` | src/layout-import/recognizers/raster-components.ts:119-142 | one turn of the search: the front cell's neighbours are queued, and box and size cover one cell more |
| `Components.VisitNeighbours` | src/layout-import/recognizers/raster-components.ts:128-141 | after the nine-cell loop every dark neighbour is in the queue and nothing but reachable cells is |
| `Components.Visit` | src/layout-import/recognizers/raster-components.ts:135-139 | a cell is labelled and queued together, only if dark and unlabelled, and the queue stays in bounds |
| `Components.ScanPixel` | src/layout-import/recognizers/raster-components.ts:99-157 | one turn of the raster scan keeps the scan's meaning, or stops for a reason that the whole image confirms |
| `Components.ScanRoot` | src/layout-import/recognizers/raster-components.ts:99-105 | an unlabelled dark pixel met by the scan is the first pixel of its component |
| `Components.ScanAdd` | src/layout-import/recognizers/raster-components.ts:143-157 | labelling one component extends the scan: labels, count, dark count and kept components stay exact |
| `Components.LabelsAreComponents` | src/layout-import/recognizers/raster-components.ts:94-142 | in a complete labelling a pixel is labelled iff dark, and two dark pixels share a label iff a path of dark 8-neighbours joins them |
| `Components.ConnectedMeans` | src/layout-import/recognizers/raster-components.ts:119-142 | reachable on the grid of dark pixels means joined by a list of pixels at or below the threshold, each at most one row and one column from the one before |
| `Components.SizesSumToDarkCount` | src/layout-import/recognizers/raster-components.ts:143 | the sizes of all components add up to the number of dark pixels |
| `Components.CensusUnique` | src/layout-import/recognizers/raster-components.ts:108-142 | sizes and tight boxes are determined by the image: there is one possible list of components |
| `Components.KeptGrow` | src/layout-import/recognizers/raster-components.ts:154-156 | a part of the scan never has more useful components than the whole image |
| `ExtractionOutcomes.ExtractShapes` | src/layout-import/recognizers/raster-components.ts:89-182 | refused above 20000 components or 10000 useful ones, then when more than 60 % of the pixels are dark, then when the padded boxes of the useful components have more than ten million cells; otherwise one candidate for each useful set of pixels, in the order of first pixels |
| `ExtractionOutcomes.ExtractionDoes` | src/layout-import/recognizers/raster-components.ts:89-182 | the same of any result that follows from the scan's own lists: useful means twelve pixels, six columns, six rows and no side more than twenty times the other; a candidate has its number, its box to the pixel and the shape that its enclosed cells ask for |
| `ExtractionOutcomes.RootSetsAre` | src/layout-import/recognizers/raster-components.ts:99-142 | the recorded components are the sets of joined dark pixels, each once |
| `ExtractionOutcomes.KeptSetsAre` | src/layout-import/recognizers/raster-components.ts:144-157 | the kept components are the useful sets, each once |
| `ExtractionOutcomes.CandidateIs` | src/layout-import/recognizers/raster-components.ts:164-181 | one candidate: number, box and recognised shape |
| `Candidates.FitComponent` | src/layout-import/recognizers/raster-components.ts:172-180 | one candidate: the component's place and box, with the fit of its filled silhouette |
| `Candidates.FitComponents` | src/layout-import/recognizers/raster-components.ts:164-181 | refused exactly if the padded boxes of all useful components exceed the limit, although the loop stops at the first excess |
| `Candidates.CandidatesWellFormed` | src/layout-import/recognizers/raster-components.ts:164-181 | candidates have distinct ids, boxes of at least 6 by 6, and a quality between 0 and 1 |
| `Candidates.InkIsComponent` | src/layout-import/recognizers/raster-components.ts:203-205 | the pixels that the contour fit reads by label are exactly the component |
| `Candidates.FitPixelsGrow` | src/layout-import/recognizers/raster-components.ts:167-170 | the running total of padded boxes only grows |
| `Contour.PaintMask` | src/layout-import/recognizers/raster-components.ts:198-211 | the padded mask has ink exactly over the component's pixels and none in the margin |
| `Contour.FloodExterior` | src/layout-import/recognizers/raster-components.ts:212-231 | a padded cell is marked exterior iff it is 4-reachable from the corner through cells without ink, and no ink is overwritten |
| `Contour.FloodAround` | src/layout-import/recognizers/raster-components.ts:216-230 | the four index offsets with their row guards visit exactly the 4-neighbours; the queue stays in bounds |
| `Contour.AroundIsStep` | src/layout-import/recognizers/raster-components.ts:217-224 | index arithmetic with the row guards is adjacency on the padded grid |
| `Contour.DrainEnds` | src/layout-import/recognizers/raster-components.ts:212-231 | when the queue is drained a cell is marked iff reachable, and every other cell is as painted |
| `Contour.MeasureMoments` | src/layout-import/recognizers/raster-components.ts:232-247 | the nested loops sum area, first and second moments over the filled cells |
| `Contour.CompareEllipses` | src/layout-import/recognizers/raster-components.ts:260-288 | the nested loops count intersection and union of the silhouette with each of the two ellipses |
| `ContourFits.FitContour` | src/layout-import/recognizers/raster-components.ts:192-305 | the fit is that of the set of cells that no inkless path joins to the margin: no shape iff the better share is below 0.8 or the two are closer than 0.06, else rectangle iff the box share is greater, else round iff 0.85 <= width/height <= 1.18, else oval |
| `ContourFits.OutsideMeans` | src/layout-import/recognizers/raster-components.ts:212-231 | reachable from the corner of the padded grid means joined to it by padded cells off the component, each beside, above or below the one before |
| `ContourMeaning.FitMeans` | src/layout-import/recognizers/raster-components.ts:248-304 | every silhouette that is not empty gets the fit that its cells ask for, with shares counted on sets and the two ellipse inequalities |
| `ContourMeaning.MomentsMean` | src/layout-import/recognizers/raster-components.ts:232-247 | the running sums are the sums over the set of cells, line by line, and their spread is the sum of squared distances from any centre |
| `ContourMeaning.MomentEllipseIs` | src/layout-import/recognizers/raster-components.ts:248-259 | the moment ellipse has the mean of the cells for centre and twice the root of their mean squared distance for radii, at least one |
| `ContourMeaning.BoxCellsAre` | src/layout-import/recognizers/raster-components.ts:267-270 | the box ellipse is the one inscribed in the bounding box |
| `ContourMeaning.OverlapCounts` | src/layout-import/recognizers/raster-components.ts:260-288 | the running counts are the sizes of intersection and union with an ellipse |
| `ContourMeaning.PerfectEllipse` | src/layout-import/recognizers/raster-components.ts:260-304 | a silhouette equal to its box ellipse that fills at most 0.94 of the box has quality 1, and is round in a square box and oval in one twice as long as wide |
| `ContourProperties.RingIsExterior` | src/layout-import/recognizers/raster-components.ts:197-231 | every cell of the padding ring is reachable from the corner |
| `ContourProperties.InkCellsCount` | src/layout-import/recognizers/raster-components.ts:198-211 | the mask has as many ink cells as the component has pixels |
| `ContourProperties.AreaIsSizePlusHoles` | src/layout-import/recognizers/raster-components.ts:232-247 | the measured area is the component's size plus the cells of its enclosed holes |
| `ContourProperties.DeviationsNonNegative` | src/layout-import/recognizers/raster-components.ts:232-250 | the squared deviations of the filled cells around any point, as computed from the sums, are not negative |
| `ContourProperties.MomentsNonNegative` | src/layout-import/recognizers/raster-components.ts:248-257 | both second moments are non-negative in exact arithmetic, so the clamp at zero absorbs rounding only |
| `ContourProperties.RadiusIsExact` | src/layout-import/recognizers/raster-components.ts:252-259 | a moment radius taken as a square root has the square that the model compares with |
| `ContourProperties.FitsWithinUnit` | src/layout-import/recognizers/raster-components.ts:260-304 | rectangle fit, ellipse fits and quality lie between 0 and 1 |
| `ContourProperties.SolidIsNotRound` | src/layout-import/recognizers/raster-components.ts:289-304 | a full box has quality 1 and is never taken for a round shape |
| `ContourProperties.DescribedInImage` | src/layout-import/recognizers/raster-components.ts:107-142 | a component's box lies inside the image |
| `Containment.ContainedInBox` | src/layout-import/recognizers/layout-interpreter.ts:13-20 | what a shape contains, round or not, lies strictly inside its bounding box |
| `Containment.ContainsTransitive` | src/layout-import/recognizers/layout-interpreter.ts:13-20 | containment is transitive for every mix of round and rectangular shapes |
| `Containment.ContainsShrinksArea` | src/layout-import/recognizers/layout-interpreter.ts:13-20 | what is contained has a strictly smaller area |
| `Containment.ContainsIrreflexive` | src/layout-import/recognizers/layout-interpreter.ts:13-20 | nothing contains itself, so the explicit self-exclusion in the section filter changes nothing |
| `Containment.ContainsMeans` | src/layout-import/recognizers/layout-interpreter.ts:13-20 | one shape contains another iff every point of the other's bounding box lies strictly inside its outline |
| `StableSort.SortSorted` | src/layout-import/recognizers/layout-interpreter.ts:82-90 | sorting orders by any strict weak order |
| `StableSort.SortIsStable` | src/layout-import/recognizers/layout-interpreter.ts:82-90 | elements that compare equal keep their order |
| `Interpreter.Interpret` | src/layout-import/recognizers/layout-interpreter.ts:47-197 | refused exactly above two million comparisons; otherwise element by element the final element of each candidate, and every warning in order |
| `Interpreter.InterpretCandidate` | src/layout-import/recognizers/layout-interpreter.ts:103-183 | one pass of the callback: the element, the warnings and the seat counts up to this candidate |
| `Interpreter.SetSeatCounts` | src/layout-import/recognizers/layout-interpreter.ts:184-188 | the last pass gives every table its count and touches nothing else |
| `InterpreterOutcomes.ResultIsInterpretation` | src/layout-import/recognizers/layout-interpreter.ts:47-197 | every element is what it must be: its kind from the shapes around it, its numbers from the candidate, a seat's table, confidence and warning from the distances alone; a table's count is the number of seats that name it; the warnings about shapes come in the order of the shapes, at most one about each, after the general one |
| `InterpreterOutcomes.SeatIsPlaced` | src/layout-import/recognizers/layout-interpreter.ts:140-172 | a seat has parent t, 0.85 and no review iff t is close and every other close table is further by half a diameter and by more than a quarter; 0.4, review and a warning naming the two nearest iff tables are close and none is such; its section and no relationship iff no table is close |
| `InterpreterOutcomes.RelationMeans` | src/layout-import/recognizers/layout-interpreter.ts:140-172 | the relation of a seat to the tables, from gaps, areas and diameters |
| `InterpreterOutcomes.SectionMeans` | src/layout-import/recognizers/layout-interpreter.ts:67-81 | a section is a fitted shape of at least 8 % of the image that contains three fitted shapes, one of them at most a quarter of its size |
| `InterpreterOutcomes.SeatsMean` | src/layout-import/recognizers/layout-interpreter.ts:82-92 | the seats are the loose shapes alike, within 35 % on both sides, to one that has most of these, three at least, and the smallest area among equals; or there are none |
| `InterpreterOutcomes.TableMeans` | src/layout-import/recognizers/layout-interpreter.ts:93-102 | a table is a loose shape, not a seat, that at least three seats are close to |
| `InterpreterOutcomes.ElementMeans` | src/layout-import/recognizers/layout-interpreter.ts:103-133 | place and size are the candidate's in fractions of the image, twice; shape, quality, certainty and review follow from kind and candidate |
| `InterpreterOutcomes.WarningsAbout` | src/layout-import/recognizers/layout-interpreter.ts:150-183 | a warning about a shape is in the result iff that shape gives it |
| `InterpreterMeaning.GapMeans` | src/layout-import/recognizers/layout-interpreter.ts:31-45 | the gap is infinite iff the seat's centre is in the table's body; else it is the distance to the nearest point of the box, or for a round or oval table the distance to the outline along the line to its centre |
| `InterpreterProperties.KindsPartition` | src/layout-import/recognizers/layout-interpreter.ts:67-114 | SECTION, TABLE, SEAT and UNKNOWN partition the candidates |
| `InterpreterProperties.SeatsAreLargestFamily` | src/layout-import/recognizers/layout-interpreter.ts:82-90 | the seats are the largest family of similar shapes of three or more, among equals the one around the smallest shape |
| `InterpreterProperties.NearbyIsSorted` | src/layout-import/recognizers/layout-interpreter.ts:135-145 | the nearby tables are the large tables close enough, nearest first |
| `InterpreterProperties.DefiniteIsNearest` | src/layout-import/recognizers/layout-interpreter.ts:140-172 | a definite table is strictly nearer than every other sufficiently large table |
| `InterpreterProperties.EnclosingIsSection` | src/layout-import/recognizers/layout-interpreter.ts:118-133 | the enclosing section is the smallest section that contains the shape |
| `InterpreterProperties.ParentMeaning` | src/layout-import/recognizers/layout-interpreter.ts:118-172 | a parent is the table that the seat definitely belongs to, or the tightest section around the child |
| `InterpreterProperties.ParentExists` | src/layout-import/recognizers/layout-interpreter.ts:118-172 | every parent id is the id of a candidate |
| `InterpreterProperties.ParentIsLarger` | src/layout-import/recognizers/layout-interpreter.ts:118-172 | a parent has a strictly larger area than its child |
| `InterpreterProperties.ParentsFormForest` | src/layout-import/recognizers/layout-interpreter.ts:118-172 | areas grow strictly along every chain of parents, so the relation has no cycle |
| `InterpreterProperties.SectionsOnChainContain` | src/layout-import/recognizers/layout-interpreter.ts:118-133 | every section on a chain of section links contains the element that the chain starts from |
| `InterpreterProperties.SeatCountIsExact` | src/layout-import/recognizers/layout-interpreter.ts:165-188 | a table's seat count is the number of SEAT elements whose parent is that table |
| `InterpreterProperties.OneMoreCandidate` | src/layout-import/recognizers/layout-interpreter.ts:165-170 | one candidate adds one seat to exactly one table, or to none |
| `InterpreterProperties.SeatsAreConserved` | src/layout-import/recognizers/layout-interpreter.ts:134-188 | seat counts plus ambiguous seats plus seats with no nearby table is the number of seats |
| `Recognizer.Analyze` | src/layout-import/recognizers/geometry-layout.recognizer.ts:10-23 | the total outcome: invalid raster, low contrast (no elements on a bright image, an error on any other), and otherwise at the Otsu threshold of the image either the first reason to refuse it or the interpretation of its components |
| `Recognizer.ViewIsValid` | src/layout-import/recognizers/geometry-layout.recognizer.ts:10-23 | the extracted candidates have distinct ids, as the interpretation assumes |
| `Recognizer.AnalyzeAt` | src/layout-import/recognizers/geometry-layout.recognizer.ts:10-23 | at a given Otsu threshold: an error exactly when there is a reason to refuse the image, and that one; otherwise elements, warnings and threshold of the interpretation |
| `Recognizer.OneOutcome` | src/layout-import/recognizers/geometry-layout.recognizer.ts:10-23 | no image has two outcomes: its Otsu threshold is unique, so an error and its reason, or a result and its threshold, are determined |
| `Recognizer.ResultIsSound` | src/layout-import/recognizers/geometry-layout.recognizer.ts:10-23 | of every result, read from its elements alone: ids are distinct, boxes lie in the unit square, a table's count is the number of seats that name it, and every parent is a larger table or section of the result |
| `LayoutServices.LayoutService.ApplyGeometry` | src/layout/services/layout-write.service.ts:582-686 | the checks in their order and the outcome of each; after a success every requested row keeps its event and holds exactly the five requested numbers, no other row has changed, the undone entries are gone, and the last entry lists the old and the requested geometry |
| `LayoutServices.LayoutService.UpdateRows` | src/layout/services/layout-write.service.ts:688-716 | the rows are rewritten in the order of the changes |
| `LayoutServices.LayoutService.Undo` | src/layout/services/layout-write.service.ts:134-176 | the applied entry of greatest position is written back, the last change of each row counting, and unflagged; with a row gone, or no such entry, nothing changes |
| `LayoutServices.LayoutService.Redo` | src/layout/services/layout-write.service.ts:178-220 | the unapplied entry of least position is written again and flagged; with a row gone, or no such entry, nothing changes |
| `GeometryHistory.NewestApplied` | src/layout/services/layout-write.service.ts:135-141 | the applied entry with the greatest position, if there is one |
| `GeometryHistory.OldestUnapplied` | src/layout/services/layout-write.service.ts:179-185 | the unapplied entry with the least position, if there is one |
| `GeometryHistory.MaxPosition` | src/layout/services/layout-write.service.ts:640-660 | the greatest position, or -1 |
| `GeometryOutcomes.ApplyDoes` | src/layout/services/layout-write.service.ts:582-686 | the step of the model does what ApplyGeometry promises in numbers |
| `GeometryOutcomes.JudgeDecides` | src/layout/services/layout-write.service.ts:582-638 | nothing to do, duplicate id, invalid numbers, unknown row, done: the first that applies |
| `GeometryOutcomes.WrittenMoves` | src/layout/services/layout-write.service.ts:655-668 | every requested row holds the requested numbers and every other row is as it was |
| `GeometryOutcomes.WrittenReplays` | src/layout/services/layout-write.service.ts:688-716 | each row named by a list of changes gets the geometry of its last change |
| `GeometryOutcomes.RedoStoresAgain` | src/layout/services/layout-write.service.ts:134-220 | undo after an accepted change gives the old rows back, and redo stores the requested numbers again |
| `Timeline.WrittenAt` | src/layout/services/layout-write.service.ts:688-716 | with distinct ids every change reaches its own row and no other row moves |
| `Timeline.WritingBack` | src/layout/services/layout-write.service.ts:615-670 | writing the recorded geometry back restores every row, nulls included |
| `Timeline.WrittenLayout` | src/layout/services/layout-write.service.ts:602-686 | a change of one event is a change of its own layout and of no other |
| `Timeline.AppliedPrefix` | src/layout/services/layout-write.service.ts:640-660 | with positions 0..n-1 and the applied entries a prefix, discarding the unapplied ones leaves exactly that prefix, and the next position is its length |
| `Timeline.EditRefines` | src/layout/services/layout-write.service.ts:582-686 | an accepted change pushes the present layout onto the past and discards the future |
| `Timeline.BackRefines` | src/layout/services/layout-write.service.ts:134-176 | undo moves the whole layout one step back |
| `Timeline.ForwardRefines` | src/layout/services/layout-write.service.ts:178-220 | redo moves the whole layout one step forward |
| `Timeline.CallRefines` | src/layout/services/layout-write.service.ts:134-220 | every call keeps the patch table a picture of a past/present/future stack: positions 0..n-1, applied entries a prefix, each entry linking two neighbouring layouts |
| `Timeline.CallIsIsolated` | src/layout/services/layout-write.service.ts:582-716 | a call for one event leaves the timeline of every other event alone |
| `Timeline.RunRefines` | src/layout/services/layout-write.service.ts:134-220 | over every run of calls on any events the patch table refines the stack of whole layouts |
| `Timeline.UndoRestoresRows` | src/layout/services/layout-write.service.ts:134-176 | a change and its undo leave the rows exactly as they were |
| `Timeline.RedoAfterUndo` | src/layout/services/layout-write.service.ts:178-220 | undo then redo is the identity on rows and history |
| `Timeline.UndosThenRedos` | src/layout/services/layout-write.service.ts:134-220 | k undos followed by k redos are the identity, for every k up to the length of the past |
| `SeatServices.SeatService.AssignSeat` | src/seat/services/seat-write.service.ts:171-368 | both subjects, no such seat, or a seat held by another are refused and change nothing; else the subject leaves its other seats in the event and takes this one, with note and status, or the seat is emptied; the log gains exactly the entries that say so |
| `SeatServices.SeatService.AssignSeatToGuest` | src/seat/services/seat-write.service.ts:370-486 | a claim that some seat holds is answered by such a seat; else the requested seat, or an oldest one reserved for the invitation, or an oldest free one gets guest, invitation, ASSIGNED and note, and no other row changes; a missing seat is unavailable, one of another event a mismatch |
| `SeatServices.SeatService.ReserveSeatForInvitation` | src/seat/services/seat-write.service.ts:510-592 | an invitation that has a seat is answered by it; else an oldest free seat of the event is reserved, or there is none |
| `SeatServices.SeatService.UnassignSeat` | src/seat/services/seat-write.service.ts:600-663 | a seat with a holder is emptied and its holder logged; any other call changes nothing |
| `SeatServices.SeatService.UnassignSeatsByGuestId` | src/seat/services/seat-write.service.ts:665-670 | every seat of the guest, in every event, is emptied and logged once, and no other row changes |
| `SeatServices.SeatService.ReleaseConflicts` | src/seat/services/seat-write.service.ts:226-283 | every other seat of the subject in the event is freed and logged, once |
| `SeatServices.SeatService.FindFirst` | src/seat/services/seat-write.service.ts:395-411 | the oldest row that matches, if any does |
| `SeatOutcomes.GuestTxDoes` | src/seat/services/seat-write.service.ts:374-486 | the transaction of the model does what AssignSeatToGuest promises, whatever its queries answered |
| `SeatOutcomes.ReserveTxDoes` | src/seat/services/seat-write.service.ts:513-592 | so does that of ReserveSeatForInvitation |
| `SeatOutcomes.AssignTxDoes` | src/seat/services/seat-write.service.ts:171-368 | so does that of AssignSeat, and no unique index ever refuses it |
| `SeatOutcomes.UnassignAllDoes` | src/seat/services/seat-write.service.ts:665-670 | so do the releases of UnassignSeatsByGuestId |
| `SeatLog.LogGrows` | src/seat/services/seat-write.service.ts:319-331 | one entry changes what the log says of one seat |
| `SeatLog.Recorded` | src/seat/services/seat-write.service.ts:285-331 | a row update and its entry keep the log replaying to the rows, the unique indexes and the meaning of the statuses |
| `SeatLog.AssignSucceedsWhen` | src/seat/services/seat-write.service.ts:171-314 | assignSeat succeeds iff not both subjects are given, the seat exists, and it is to be freed, is free or has that very holder; the unique indexes never refuse it |
| `SeatLog.AssignMovesOneSubject` | src/seat/services/seat-write.service.ts:226-314 | the subject ends with the target seat and no other in the event; nobody else's seat changes |
| `SeatLog.ConflictsGone` | src/seat/services/seat-write.service.ts:226-283 | after the clearing loop no other row of the event clashes with the new holder |
| `SeatLog.AssignKeepsGood` | src/seat/services/seat-write.service.ts:171-331 | assignSeat keeps the log exact and the rows well-formed, whether it succeeds or fails |
| `SeatLog.GuestClaimKeepsGood` | src/seat/services/seat-write.service.ts:426-473 | so does the guest claim |
| `SeatLog.InvitationClaimKeepsGood` | src/seat/services/seat-write.service.ts:550-583 | so does the reservation |
| `SeatLog.GuestClaimHolds` | src/seat/services/seat-write.service.ts:375-447 | a claim that succeeds returns a seat that holds what was claimed |
| `SeatLog.GuestClaimIsIdempotent` | src/seat/services/seat-write.service.ts:375-384 | a redelivered claim returns the very seat that holds it, changes no row and adds no entry |
| `SeatLog.ReservationHolds` | src/seat/services/seat-write.service.ts:513-562 | a reservation that succeeds returns a seat of the event with that invitation |
| `SeatLog.ReservationIsIdempotent` | src/seat/services/seat-write.service.ts:513-525 | a redelivered reservation returns the very seat, changes no row and adds no entry |
| `SeatLog.GuestIsGone` | src/seat/services/seat-write.service.ts:665-670 | unassigning by guest frees exactly the guest's seats |
| `SeatLog.UnassignAllKeepsGood` | src/seat/services/seat-write.service.ts:600-670 | unassigning any list of seats keeps log and rows exact |
| `SeatLog.PerformKeepsGood` | src/seat/services/seat-write.service.ts:171-670 | every operation keeps them exact |
| `SeatLog.RunKeepsGood` | src/seat/services/seat-write.service.ts:171-670 | over every run the log replays to every live seat's holder; AVAILABLE means no holder, RESERVED means an invitation and no guest, and no two seats of an event share a guest or an invitation |
| `SeatClaims.MixedRunIsSound` | src/seat/services/seat-write.service.ts:171-670 | over every run that mixes whole operations with the reads and updates of claims in flight, the log replays to every live seat's holder and the rows keep their indexes and statuses |
| `SeatLog.AssignedChain` | src/seat/services/seat-write.service.ts:319-331 | of two ASSIGNED entries of a seat with no UNASSIGNED between them, the later keeps every guest and invitation that the earlier set |
| `SeatClaims.GuestClaimIsChosen` | src/seat/services/seat-write.service.ts:385-447 | the atomic claim is the split claim with nothing between its read and its update |
| `SeatClaims.StepEvolves` | src/seat/services/seat-write.service.ts:426-447 | a step moves a seat's holder only from nobody, or from a reservation to a guest with the same invitation |
| `SeatClaims.HoldersEvolve` | src/seat/services/seat-write.service.ts:370-592 | in every interleaving of reads and updates a holder only moves free to reserved(i) to assigned(g, i), or free to assigned: no claim replaces another holder |
| `SeatClaims.WinAdvances` | src/seat/services/seat-write.service.ts:426-447 | an update that takes effect found its seat in the state that it checks for, and touches no other seat |
| `SeatClaims.CompetingClaims` | src/seat/services/seat-write.service.ts:370-592 | in every interleaving a seat is won at most once while free and at most once while reserved; if both, the reservation came first and the guest claimed its invitation |
| `Snapshot.LayoutStore.RestoreVersion` | src/layout/services/layout-write.service.ts:222-314 | sections, tables and seats are created in order with links looked up in the two maps; a row that a unique index refuses rolls everything back |
| `SnapshotRows.RowsComeBack` | src/layout/services/layout-write.service.ts:222-314 | save and restore, row by row: every section, every table of a section and every seat of such a table comes back with all its columns under a new id, linked to its own section and table, and no other row exists; of the columns only the seat type is lost, and nulls get their defaults |
| `SnapshotRows.SavedColumns` | src/layout/utils/snapshot-serializer.ts:60-110 | every entry of a saved layout repeats the columns of its row |
| `SnapshotRows.RestoreRefusedWhen` | src/layout/services/layout-write.service.ts:238-283 | any snapshot is refused iff two sections have one name or two tables one name in one restored section |
| `SnapshotRoundTrip.RestoreSucceeds` | src/layout/services/layout-write.service.ts:222-314 | a snapshot saved from rows that satisfy the unique indexes restores without error, and its rows are known in closed form |
| `SnapshotRoundTrip.SectionsInOrder` | src/layout/services/layout-write.service.ts:240-258 | all sections are created under consecutive fresh ids and the map sends each old id to its new one |
| `SnapshotRoundTrip.TablesInOrder` | src/layout/services/layout-write.service.ts:260-283 | exactly the tables whose section is known are created, linked to its new id |
| `SnapshotRoundTrip.SeatsInOrder` | src/layout/services/layout-write.service.ts:285-311 | exactly the seats whose section and table are known are created, linked to their new ids |
| `SnapshotRoundTrip.SectionsRenamed` | src/layout/utils/snapshot-serializer.ts:60-110 | the second save lists exactly the renamed sections |
| `SnapshotRoundTrip.TablesRenamed` | src/layout/utils/snapshot-serializer.ts:60-110 | the second save lists exactly the renamed kept tables, parent link included |
| `SnapshotRoundTrip.SeatsRenamed` | src/layout/utils/snapshot-serializer.ts:60-160 | the second save lists exactly the renamed kept seats, both parent links included, with the seat type as restored |
| `SnapshotRoundTrip.SaveRestoreSave` | src/layout/utils/snapshot-serializer.ts:60-160 | save, restore, save gives the same layout up to three injective renamings of ids |
| `SnapshotRoundTrip.MapsAreInjective` | src/layout/services/layout-write.service.ts:238-311 | no two old ids are sent to one new id |
| `SnapshotRoundTrip.WhatSurvives` | src/layout/services/layout-write.service.ts:260-311 | exactly the tables whose section is in the event and the seats whose table and section are kept survive |
| `SnapshotRoundTrip.SeatTypeSurvives` | src/layout/utils/snapshot-serializer.ts:113-160 | a seat type comes back iff it is STANDARD or RESERVED, because normalisation looks it up among the seat statuses |
| `AutoLayout.BuildSections` | src/layout/services/layout-write.service.ts:1045-1096 | the loop that uses up the remaining seats yields the plan in closed form: table k has min(10, n - 10k) seats, section s has tables 5s to 5s+4 |
| `AutoLayout.PlanMeans` | src/layout/services/layout-write.service.ts:1045-1096 | the plan in numbers: ceil(n/10) tables numbered through, ten seats each but the last, five to a section but the last, with names, shapes and orders |
| `AutoLayout.GenerateTables` | src/layout/utils/geometry-engine.ts:223-269 | all tables of all sections, in order, each with the id of its place |
| `AutoLayout.GenerateSeats` | src/layout/utils/geometry-engine.ts:397-447 | the seats of every table, found again through the numbers in its id |
| `AutoLayout.Generate` | src/layout/utils/geometry-engine.ts:75-103 | sections, tables and seats of one configuration |
| `EngineOutcomes.EngineGenerates` | src/layout/utils/geometry-engine.ts:75-447 | for every configuration: section i, table t of section i and seat s of that table stand at their places in the three lists, with their ids, names, numbers, links and orders |
| `AutoLayout.PlacesAre` | src/layout/utils/geometry-engine.ts:271-505 | place k of a table or seat, for every shape: k of n on a ring or grid, or counted along the first or second row |
| `AutoLayout.PlacesDistinct` | src/layout/utils/geometry-engine.ts:271-505 | no two tables of a section and no two seats of a table share a place |
| `AutoLayout.RowsShared` | src/layout/utils/geometry-engine.ts:309-354 | how many places the first row has: half, three fifths in a horseshoe, all in a row of seats |
| `AutoLayout.TableIdRoundTrip` | src/layout/utils/geometry-engine.ts:249 | splitting a table id and reading its numbers gives back section and table index, for all indexes |
| `AutoLayout.TablesResolve` | src/layout/utils/geometry-engine.ts:403-412 | every generated table id leads back to the configuration that it was made from |
| `AutoLayout.TablePlaces` | src/layout/utils/geometry-engine.ts:271-354 | every table shape places as many tables as it is given |
| `AutoLayout.SeatPlaces` | src/layout/utils/geometry-engine.ts:412-486 | every seat shape places exactly as many seats as it is given |
| `Splitting.SplitJoins` | src/layout/utils/geometry-engine.ts:403-406 | the parts of a split string, joined, are the string, and none has the separator |
| `Splitting.SplitFirst` | src/layout/utils/geometry-engine.ts:403-406 | splitting at the first separator gives back the part before it |
| `Decimal.RoundTrip` | src/layout/utils/geometry-engine.ts:403-406 | reading a written number gives the number |
| `Decimal.Injective` | src/layout/services/layout-write.service.ts:1053-1080 | numbered names and ids are distinct |
| `LayoutRows.Write` | src/layout/services/layout-write.service.ts:423-567 | the rows that the transaction creates, for any order in which the database lists the tables, or none when a unique index refuses one |
| `LayoutRows.BatchAcceptedWhen` | src/layout/services/layout-write.service.ts:485-509 | the batch of tables is refused exactly if two of one name go into one section row |
| `LayoutRows.TableLookup` | src/layout/services/layout-write.service.ts:520-527 | a table is found by its id as the first listed row of its name |
| `LayoutRows.AnySectionListing` | src/layout/services/layout-write.service.ts:467-478 | the order in which the sections are listed cannot matter, since their names are unique |
| `LayoutRows.WriteMirrors` | src/layout/services/layout-write.service.ts:440-567 | with distinct names, in every listing, every table row has the id of its own section's row and every seat row those of its own table and section |
| `LayoutRows.SectionsCreated` | src/layout/services/layout-write.service.ts:440-455 | sections of distinct names are all created |
| `LayoutRows.TablesFound` | src/layout/services/layout-write.service.ts:511-527 | lookup by distinct names finds every table's own row, however the rows are listed |
| `LayoutRows.SeatsFollowNames` | src/layout/services/layout-write.service.ts:511-559 | each seat of the geometry becomes one row, at the first listed table of its own table's name |
| `LayoutRows.OwnTableWhenFirstListed` | src/layout/services/layout-write.service.ts:511-559 | on every successful write of linked geometry a seat row is at its own table's row iff that row is the first listed of its name |
| `LayoutRows.OwnTableAlwaysWhen` | src/layout/services/layout-write.service.ts:511-559 | that holds in every listing iff no other table has the name |
| `LayoutRows.SharedNamesMisplace` | src/layout/services/layout-write.service.ts:511-559 | of two tables with one name, the seats of one at least are written at the other, in every listing |
| `LayoutRows.GeneratedIsLinked` | src/layout/utils/geometry-engine.ts:223-447 | everything that the engine generates is linked, whatever its names: ids occur once, every table has its section and every seat its table |
| `LayoutRows.SharedNamesHappen` | src/layout/services/layout-write.service.ts:511-559 | and it happens: two sections, each with one table called Main, are written, and in every listing a seat of one is at the other |
| `MaxSeats.PlanTables` | src/layout/services/layout-write.service.ts:1045-1096 | table k of the geometry is table k % 5 of section k / 5 |
| `MaxSeats.PlanSeats` | src/layout/utils/geometry-engine.ts:397-447 | seat j of the geometry is seat j % 10 of table j / 10 |
| `MaxSeats.PlanIsWellLinked` | src/layout/services/layout-write.service.ts:1045-1096 | the generated geometry has max(n, 0) available seats, ceil(n/10) tables and ceil of that over 5 sections, all properly linked and named |
| `MaxSeats.AutoGenerateFromMaxSeats` | src/layout/services/layout-write.service.ts:378-390 | for every n and every listing of the tables, with captions, orders and names, exactly max(n, 0) AVAILABLE seat rows are written, ten at each table but the last, five tables in each section but the last, each row linked to its own table and section |
| `MaxSeats.SeatsAtTable` | src/layout/services/layout-write.service.ts:540-560 | every written table has as many seat rows as its capacity |
| `OutboxPublishers.AnalyticsOutboxPublisher.PublishReady` | src/analytics/analytics-outbox.publisher.ts:30-69 | a tick that nobody interrupts gives the records that it found their turns in order, once each, up to the first whose calls throw past publish, which stays leased; it touches no other record and the publisher is ready again either way; a tick during a tick does nothing |
| `OutboxPublishers.AnalyticsOutboxPublisher.Attempt` | src/analytics/analytics-outbox.publisher.ts:50-66 | the turn of one record: claim, then publish, with every call failing or not |
| `OutboxPublishers.AnalyticsOutboxPublisher.Claim` | src/analytics/analytics-outbox.publisher.ts:51-63 | the conditional update takes the lease exactly if the record is neither final nor leased |
| `OutboxPublishers.AnalyticsOutboxPublisher.Publish` | src/analytics/analytics-outbox.publisher.ts:72-121 | a send and save that succeed publish the record; the n-th failure puts the next attempt off by 2, 4, 8, 16, 32, 64, 128, 256 or 300 seconds for n = 1..9, the tenth kills the record; a load or a failure update that throws leaves the record leased and ends the tick |
| `OutboxRecords.DelayLaw` | src/analytics/analytics-outbox.publisher.ts:113-117 | a second at first, then each delay is the lesser of 300 seconds and twice the one before |
| `OutboxRecords.DelaysAre` | src/analytics/analytics-outbox.publisher.ts:113-117 | the nine delays in milliseconds |
| `OutboxRecords.FailureMeans` | src/analytics/analytics-outbox.publisher.ts:100-119 | what a recorded failure writes, in numbers |
| `OutboxRecords.PolledMeans` | src/analytics/analytics-outbox.publisher.ts:36-50 | a poll finds at most 50 rows, each once, neither published nor dead, not leased within 60 seconds, and due |
| `OutboxRecords.ClaimableMeans` | src/analytics/analytics-outbox.publisher.ts:36-63 | claimable means neither published nor dead and not leased within 60 seconds; found by a poll means also due |
| `OutboxPublishers.LeadsIsRun` | src/analytics/analytics-outbox.publisher.ts:30-121 | what the publisher does is a run of the interleaved machine, so everything proved of those runs holds of it |
| `OutboxProperties.StepKeepsSound` | src/analytics/analytics-outbox.publisher.ts:30-121 | every step of every instance keeps: a live publisher holds its record's lease, attempts are the recorded failures, a record is dead exactly at ten, never both published and dead |
| `OutboxProperties.RunIsSound` | src/analytics/analytics-outbox.publisher.ts:30-121 | so does every interleaving of any number of instances |
| `OutboxProperties.OnePublisher` | src/analytics/analytics-outbox.publisher.ts:51-66 | two live publishers never hold the same record |
| `OutboxProperties.ClaimableIsUnheld` | src/analytics/analytics-outbox.publisher.ts:51-63 | a record whose lease has run out has no live publisher |
| `OutboxProperties.StepOnRecord` | src/analytics/analytics-outbox.publisher.ts:72-121 | what each step writes to a record: a lease, a publication, a failure with its delay or death, or nothing; final records never change |
| `OutboxProperties.FinalIsForever` | src/analytics/analytics-outbox.publisher.ts:51-63 | a published or dead-lettered record never changes again |
| `OutboxProperties.Accounts` | src/analytics/analytics-outbox.publisher.ts:100-119 | in every reachable state attempts equal recorded failures, at most ten, dead exactly at ten, published implies delivered, and after n failures, n < 10, the record is due 2, 4, 8, 16, 32, 64, 128, 256 or 300 seconds after the last |
| `OutboxProperties.DelaysGrow` | src/analytics/analytics-outbox.publisher.ts:113-117 | the retry delay never shrinks and is at most 300 seconds |
| `OutboxProperties.ClaimIsEarlyWhen` | src/analytics/analytics-outbox.publisher.ts:51-63 | a claim comes before the record's next attempt is due iff a failure was recorded since the poll and the delay after the last failure has not passed; that failure is another instance's |
| `OutboxProperties.EarlyClaimHappens` | src/analytics/analytics-outbox.publisher.ts:51-63 | and it does happen: the claim does not look at the due time again (a run of two instances) |
| `AccessProjections.EventRoleHandler.HandleUserAccessChanged` | src/handlers/event-role.handler.ts:53-111 | a message older than the row is skipped, any other replaces the row; other rows stay |
| `AccessProjections.RowIsDecided` | src/handlers/event-role.handler.ts:66-99 | after any deliveries a row is as it was when all messages were older, and otherwise carries permissions, roles and time of the last delivered among the newest messages |
| `AccessProjections.NewestIsHeld` | src/handlers/event-role.handler.ts:71-99 | whatever came before and after it, the newest message of a key is what the row holds |
| `AccessProjections.OrdersConverge` | src/handlers/event-role.handler.ts:53-111 | the same messages in any order and with any repetition leave the same projection, when the newest ones of each key agree |
| `AccessProjections.DistinctTimesAgree` | src/handlers/event-role.handler.ts:71-80 | pairwise distinct times per key are enough for that |
| `AccessProjections.TiesDiverge` | src/handlers/event-role.handler.ts:71-80 | two newest messages of one time with different contents: two orders of the same messages leave different projections |
| `AccessProjections.ConvergesExactlyWhen` | src/handlers/event-role.handler.ts:53-111 | all orders of a set of messages converge iff the newest messages of each key agree |
| `AccessProjections.LatestIsKeptExactlyWhen` | src/handlers/event-role.handler.ts:66-99 | handlers that overlap on one row, copies of the latest message among them: it ends at the latest message iff no handler that had passed its read before the last write of the latest does its own write after it |
| `AccessProjections.OverlapLosesLatest` | src/handlers/event-role.handler.ts:66-99 | two overlapping handlers can leave the older message in the row, which no order of whole deliveries does |
| `MetaDefaults.DeepMergeMeta` | src/utils/meta-defaults.ts:27-48 | the key-by-key merge computes the recursive merge, on any two JSON values |
| `MetaDefaults.PrepareMeans` | src/utils/meta-defaults.ts:14-21 | prepared metadata has the six defaults wherever the input names no such key, and otherwise what the input says |
| `MetaDefaults.SpreadMeans` | src/utils/meta-defaults.ts:32-34 | a string has its characters under its indexes, an array its items, an object its fields, and nothing else a key |
| `MetaDefaults.FalsyValues` | src/utils/meta-defaults.ts:28-30 | null, false, zero and the empty string count as no override, and nothing else does |
| `MetaDefaults.SelfMerge` | src/utils/meta-defaults.ts:27-48 | an object merged into itself is itself |
| `MetaDefaults.MergeAgain` | src/utils/meta-defaults.ts:27-48 | after a truthy override, merging the result into the same base again changes nothing |
| `MetaDefaults.MergeIdempotentWhen` | src/utils/meta-defaults.ts:27-48 | the merge is idempotent iff the override is truthy, the base is an object or the base is falsy |
| `MetaDefaults.MergeNotIdempotent` | src/utils/meta-defaults.ts:28-30 | a concrete pair for which it is not: base 5, override null (no caller in the service merges into such a base) |
| `MetaDefaults.PrepareIsIdempotent` | src/utils/meta-defaults.ts:53-55 | preparing metadata twice is preparing it once, for every input |
| `MetaDefaults.OverrideWins` | src/utils/meta-defaults.ts:34-45 | wherever an object override holds a value that is not an object, the result holds it |
| `MetaDefaults.BaseShinesThrough` | src/utils/meta-defaults.ts:32-45 | wherever the override says nothing, the result is as the base |
| `MetaDefaults.KeysAreUnion` | src/utils/meta-defaults.ts:32-45 | at the end of every path along which the override is an object, the result is an object whose keys are the union of the base's and the override's there |
| `MetaDefaults.MergedAt` | src/utils/meta-defaults.ts:32-45 | and it is the merge of what base and override have there, so the merge means the same at every level |

## Left out

- Threshold.BinaryThreshold: does not model rounding in the running statistic, nor a width or height that is not an integer or data that is not a byte array, which the code refuses.
- ContourFits.FitContour: takes component labels as a plain list, and moment radii by their squares; rounding is not modelled.
- ContourProperties.MomentsNonNegative: holds in exact arithmetic; how large a negative rounding error the clamp absorbs is not modelled.
- Recognizer.Analyze: width and height of the analysis record are those of the source and are not repeated; the asynchronous wrapper is left out.
- LayoutServices.LayoutService.Undo: with no applied entry the code goes on to saved versions; the model returns NothingToDo there. Version-level redo never finds a newer version than the newest.
- LayoutServices.LayoutService.Redo: as for Undo.
- LayoutServices.LayoutService.ApplyGeometry: seat, table and section tables are one map keyed by kind and id; the actor and the change log are left out; one call is one step.
- Timeline.RunRefines: runs consist of geometry changes, undo and redo; moveSeat, moveTable, moveSection and deletions change rows without an entry and are not part of a run.
- Snapshot.LayoutStore.RestoreVersion: rows of one event only; columns that a snapshot does not have (shape, section capacity and rotation, holders) and snapshots with missing parts are left out.
- SnapshotRoundTrip.SaveRestoreSave: tables whose section and seats whose table or section are not in the event do not come back; WhatSurvives says exactly which do.
- AutoLayout.Generate: coordinates, radii, facing and section bounds are left out; counts, ids, names and links are kept.
- InterpreterMeaning.GapMeans: assumes of Math.hypot that its square is the sum of the squares; nothing else depends on its values.
- LayoutRows.Write: wiping the old layout and writing the new one is one step; the listing of the tables is a parameter, and coordinates and metadata of the rows are left out.
- SeatServices.SeatService.AssignSeat: one atomic step; the analytics outbox rows and the layout change log are left out, and so is an id that is the empty string.
- SeatServices.SeatService.ReserveSeatForInvitation: the second look for an existing reservation after a lost update changes nothing and is left out.
- SeatServices.SeatService.AssignSeatToGuest: asks its three queries up front; they change nothing, so the answers are the same.
- SeatClaims.MixedRunIsSound: whole operations are steps of their own; only the two claims are split into read and update.
- SeatLog.RunKeepsGood: creation gives free seats and deletion removes rows; moveSeat, duplicateTable, cloneSection and restoreVersion, which copy a status without its holder, are not part of a run.
- OutboxProperties.RunIsSound: assumes one clock and that a live publish does not outlast its 60 second lease; an instance that stops, or whose tick an exception ends, is free to do so at any step.
- OutboxPublishers.AnalyticsOutboxPublisher.PublishReady: covers a tick at one time that no other instance interrupts; interleavings are those of the machine in Outbox. A poll that throws changes nothing and is left out, and so are the polling order by creation time, the message text and the last error.
- AccessProjections.EventRoleHandler.HandleUserAccessChanged: one atomic step; overlapping handlers of one row are LatestIsKeptExactlyWhen. A time that is not a date is left out.
- MetaDefaults.DeepMergeMeta: JSON values only: no undefined, NaN, functions or `__proto__`, and the order of keys is not modelled.
- GraphQL resolvers, guards, configuration, logging, tracing and Kafka wiring: no state of their own.
- Import of files (images, PDF, worker threads, the admission counter): foreign input and output.
- Role and settings projections: their staleness check compares with the time of the write, so no order-independence holds.
- Collision, spacing and trigonometric placement: no claim without rounding and cosine facts.
- Renaming sections and tables, colour groups, presence: would only add easy members.
