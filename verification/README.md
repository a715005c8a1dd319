# DataBrick in Dafny

DataBrick manages a video installation: an admin creates *shows*, assigns each
to an artist, and the artist fills the *bricks* of two gallery walls (226 small
screens) with videos. Then the design goes through review (in design, pending
approval, approved). The brick page tracks each brick's health through a
catalog of *statuses* and a history of status changes. The browser is a React
application; the server is a Django REST service.

This project models the deterministic logic under the screens and the REST
views, as immutable datatypes and pure functions, and proves what that logic
promises.

- **Wall tables and grids** (`WallTables`, `WallIds`, `WallLabels`, `WallOrder`, `SeqFacts`, `WallGrid`). These are
  the literal label-to-brick tables of both walls, with their coverage and
  numbering facts. They also cover how the video page, the preview and the brick
  page classify each grid cell.
- **Location assignment** (`Entities`, `Placement`, `DragDrop`, `Allocation`,
  `VideoListing`). This covers the drag-and-drop handlers (list to wall,
  duplicate slot to wall, move and swap between bricks), removal, random
  allocation with the shuffles as arbitrary permutations, and the video list's
  reordering and selection.
- **Brick health** (`BrickStatus`, `StatusCache`, `BrickWall`). On the server
  side, `modify-status` keeps each brick's status set and history in step. In
  the browser, the brick page keeps a cached copy of the catalog and the bricks,
  and its dialogs change that copy.
- **Shows** (`Shows`, `IsoDates`, `ShowStore`, `DecimalText`). This covers the
  review cycle, the access and edit-lock rules, the create form's checks, and
  the server's show, video and location tables with their endpoints.
- **Media admission** (`UploadChecks`, `UploadQueue`, `MediaRules`,
  `ErrorText`). This covers the browser's and the server's upload checks, the
  cropping decisions, the upload queue, and the error text a client receives.
- **Accounts** (`Accounts`). This covers invitation, acceptance, removal,
  sign-in with an emailed code, and password reset by single-use token.

`Wrappers` holds `Option` and `Result`. Times are whole seconds and media
metadata are integers. Random values, mail delivery and server replies are
parameters of the functions that depend on them.

## Model

| member | source | states |
|---|---|---|
| WallTables.Lookup | databrick-frontend/src/Constants.js:44-102 | the brick under a label, rows counted from A; None exactly when no entry of the table carries that label (a gap in the wall) |
| WallTables.LookupEntry | databrick-frontend/src/Constants.js:49-74 | in any table whose labels are unique (as an object literal's keys are), looking up an entry's own label yields that entry's brick |
| WallLabels.WestLabelsUnique | databrick-frontend/src/Constants.js:49-74 | no label of the west table names two bricks, row I's out-of-order `I10` entry included |
| WallLabels.EastLabelsUnique | databrick-frontend/src/Constants.js:76-102 | no label of the east table names two bricks |
| WallLabels.WestLookup | databrick-frontend/src/Constants.js:49-74 | looking up the label of any west entry finds that entry's brick |
| WallLabels.EastLookup | databrick-frontend/src/Constants.js:76-102 | looking up the label of any east entry finds that entry's brick |
| WallLabels.RisingUnique | databrick-frontend/src/Constants.js:49-74 | a row written left to right never repeats a column |
| WallLabels.UniqueRows | databrick-frontend/src/Constants.js:49-74 | twelve rows, one per row letter, each without a repeated column, have unique labels together |
| WallTables.WestEntriesInRange | databrick-frontend/src/Constants.js:44-74 | the west table has 123 entries, all on rows A-L and columns 1-26, each holding a brick in 1..123 |
| WallTables.EastEntriesInRange | databrick-frontend/src/Constants.js:76-102 | the east table has 103 entries, all on rows A-L and columns 27-47, each holding a brick in 124..226 |
| WallIds.WestIdsExact | databrick-frontend/src/Constants.js:49-74 | the west table names every brick 1..123 exactly once |
| WallIds.EastIdsExact | databrick-frontend/src/Constants.js:76-102 | the east table names every brick 124..226 exactly once |
| WallIds.AllBricksExact | databrick-frontend/src/Constants.js:49-102 | together the two tables hold 226 distinct ids, exactly 1..226 (the backend's brick count), so the east-then-west list the allocation screen builds is a permutation of the location numbers |
| WallTables.WestRowsIncrease | databrick-frontend/src/Constants.js:49-74 | every west row except I is written left to right with strictly rising ids (the whole numbering is stated by `WallOrder.WestColumnMajor`) |
| WallTables.EastRowsIncrease | databrick-frontend/src/Constants.js:77-102 | every east row is written left to right with strictly rising ids (the whole numbering is stated by `WallOrder.EastColumnMajor`) |
| WallOrder.WestColumnMajor | databrick-frontend/src/Constants.js:32-74 | the documented numbering convention: of any two west entries, one comes first in column-major reading order (by column, then down the rows, with `I2` read as column 12) exactly when its id is lower |
| WallOrder.EastColumnMajor | databrick-frontend/src/Constants.js:76-102 | of any two east entries, one comes first in column-major reading order exactly when its id is lower |
| WallOrder.ColumnMajorOf | databrick-frontend/src/Constants.js:32-41 | a table whose entries sit in column runs of consecutive ids, top to bottom and column after column, is numbered in column-major order |
| Entities.FindVideo | databrick-frontend/src/VideoPage/Wall.js:83 | `find` by id: None exactly when no video has the id, otherwise the first video carrying it |
| Entities.FindBrick | databrick-frontend/src/BrickPage/BrickWall.js:107 | `find` by id: None exactly when no brick has the id, otherwise the first brick carrying it |
| Entities.FindLocation | databrick-frontend/src/VideoPage/WallContainer.js:64 | `find` by location number: None exactly when no location has the number, otherwise the first one |
| Entities.FindUniqueLocation | backend/videos/models.py:182-183 | with location numbers unique per show, `find` returns the one location with that number |
| Placement.SetVideo | databrick-frontend/src/VideoPage/WallContainer.js:68-74 | the `map` update keeps the list's length and numbers, gives every location with the number the new video and leaves every other location untouched |
| Placement.SetVideoAbsent | databrick-frontend/src/VideoPage/WallContainer.js:148-154 | updating a number no location carries changes nothing |
| Placement.SetVideoSame | databrick-frontend/src/VideoPage/WallContainer.js:89-95 | writing back the video a location already holds changes nothing |
| Placement.SetVideoAssigned | databrick-frontend/src/VideoPage/WallContainer.js:114-120 | with unique numbers, replacing one location's video trades exactly its old video for the new one in the multiset of videos on the wall |
| DragDrop.OccupiedUnique | databrick-frontend/src/VideoPage/WallContainer.js:85-87 | with unique numbers, the destination counts as occupied exactly when its location holds a truthy video |
| DragDrop.PlaceCopy | databrick-frontend/src/VideoPage/WallContainer.js:63-82 | a copy from the list or the duplicate slot fills an empty destination, leaves an occupied one as it was, and throws exactly when no location has the number |
| DragDrop.Rearrange | databrick-frontend/src/VideoPage/WallContainer.js:84-136 | a wall-to-wall drop touches only the source and destination; the destination always ends up with the dragged video |
| DragDrop.ListDrop | databrick-frontend/src/VideoPage/VideoPage.js:65-109 | without edit rights or a dragged video nothing changes; a drop on a negative number only ends the drag; any successful drop ends the list drag and leaves the wall drag alone |
| DragDrop.WallDrop | databrick-frontend/src/VideoPage/WallContainer.js:38-143 | without edit rights nothing changes; a drop on the duplicate slot only ends the drag; every successful drop ends the wall drag; with nothing dragged on the wall the list's handler decides |
| DragDrop.PreviewDrop | databrick-frontend/src/VideoPage/PreviewModal.js:59-162 | no edit guard; the swap onto an occupied brick returns early and keeps the drag, every other completed drop ends it |
| DragDrop.WallDragStart | databrick-frontend/src/VideoPage/WallContainer.js:30-35 | starting a drag records the video and its brick only when editing is allowed |
| DragDrop.ListDragStart | databrick-frontend/src/VideoPage/VideoPage.js:59-62 | starting a drag from the list records the video only when editing is allowed |
| DragDrop.PreviewDragStart | databrick-frontend/src/VideoPage/PreviewModal.js:52-56 | the preview records the drag without any guard |
| DragDrop.WallRemove | databrick-frontend/src/VideoPage/WallContainer.js:145-154 | removal nulls the brick's video only when editing is allowed and never touches the drags |
| DragDrop.PreviewRemove | databrick-frontend/src/VideoPage/PreviewModal.js:164-171 | the preview's removal nulls the brick's video without a guard |
| DragDrop.PreviewClose | databrick-frontend/src/VideoPage/PreviewModal.js:45-49 | closing the preview clears its drag and keeps its locations |
| DragDrop.RemoveOnlyTarget | databrick-frontend/src/VideoPage/WallContainer.js:148-154 | removal changes only the locations with that number, each of which ends with no video |
| DragDrop.SwapContents | databrick-frontend/src/VideoPage/WallContainer.js:87-111 | onto an occupied brick the two swap: the source receives the destination's old video, the destination the dragged one |
| DragDrop.MoveContents | databrick-frontend/src/VideoPage/WallContainer.js:112-136 | onto an empty brick the source is left holding `''` and the destination receives the dragged video |
| DragDrop.SelfDropNoChange | databrick-frontend/src/VideoPage/WallContainer.js:84-136 | dropping a video back on its own brick changes nothing |
| DragDrop.RearrangeKeepsVideos | databrick-frontend/src/VideoPage/WallContainer.js:84-136 | a move or swap between two bricks keeps the multiset of videos on the wall |
| DragDrop.ExchangeKeepsVideos | databrick-frontend/src/VideoPage/WallContainer.js:87-111 | handing one brick's video to another and giving the first a reference worth the same as the second's old one keeps the multiset of videos on the wall |
| DragDrop.SelfDropKeepsVideos | databrick-frontend/src/VideoPage/WallContainer.js:84-136 | with unique numbers, a self-drop is no change at all |
| DragDrop.PlaceCopyAddsOne | databrick-frontend/src/VideoPage/WallContainer.js:63-82 | a copy onto an empty brick adds exactly one occurrence of the dragged video; onto an occupied brick the wall is unchanged |
| DragDrop.WallDropDelegates | databrick-frontend/src/VideoPage/WallContainer.js:138-140 | with nothing dragged on the wall, the wall's drop is the list's drop |
| DragDrop.DuplicateSlotDropKeepsLocations | databrick-frontend/src/VideoPage/PreviewModal.js:77-80 | a drop on the duplicate slot ends the drag and changes no location, on the wall and in the preview |
| WallGrid.Letters | databrick-frontend/src/VideoPage/Wall.js:69 | the row letters are sized by the column range, not the row range (25 west, 20 east), the k-th being the k-th letter from the wall's first row |
| WallGrid.GridLabel | databrick-frontend/src/VideoPage/Wall.js:75 | grid row 0 is the header; row i takes letter i-1 when one exists and an undefined letter otherwise |
| WallGrid.BrickAt | databrick-frontend/src/VideoPage/Wall.js:77 | a cell holds a brick exactly when the table has an entry with that label; an undefined letter is always a gap |
| WallGrid.Grid | databrick-frontend/src/VideoPage/Wall.js:67-147 | one brick row per row 1..row end (after the header), one cell per column of the inclusive range, each showing the brick stored under its label |
| WallGrid.EntryInGrid | databrick-frontend/src/VideoPage/Wall.js:67-147 | every table entry on the wall appears in the grid, in its letter's row and its number's column |
| WallGrid.EntryBrickInGrid | databrick-frontend/src/VideoPage/Wall.js:67-147 | in a table with unique labels, which both real tables have (`WallLabels.WestLabelsUnique`, `WallLabels.EastLabelsUnique`), the cell an entry appears in shows that entry's own brick |
| WallGrid.WallsHaveLetters | databrick-frontend/src/Constants.js:44-48 | both walls have enough letters for their twelve rows (25 on the west wall, 20 on the east) |
| WallGrid.BrokenBricks | databrick-frontend/src/VideoPage/VideoPage.js:46 | the video page keeps exactly the cached bricks that carry at least one status |
| WallGrid.ViewedIds | databrick-frontend/src/VideoPage/Wall.js:26-37 | a brick id is highlighted exactly when a status is being viewed and some listed brick with that id carries it |
| WallGrid.ViewedIdsOfBroken | databrick-frontend/src/BrickPage/BrickWall.js:38-50 | a brick carrying the viewed status is broken, so the video page (handed only broken bricks) and the brick page (handed all of them) compute the same highlighted ids |
| WallGrid.AssignedVideo | databrick-frontend/src/VideoPage/Wall.js:80-84 | a cell shows a video only when it is a brick whose location refers to a listed video |
| WallGrid.AssignedVideoExact | databrick-frontend/src/VideoPage/Wall.js:80-84 | with unique location numbers and video ids, a brick shows video v exactly when its location refers to v and v is listed |
| WallGrid.WallCellAt | databrick-frontend/src/VideoPage/Wall.js:80-110 | a cell is droppable exactly when it is a brick; viewed exactly when a broken brick there carries the viewed status; broken exactly when listed broken and not viewed; edit buttons exactly when editing and a video is shown |
| WallGrid.PreviewCellAt | databrick-frontend/src/VideoPage/PreviewWall.js:66-91 | the preview has no highlight; broken exactly when listed broken; the remove and duplicate buttons on every cell showing a video |
| WallGrid.PreviewAgreesWithWall | databrick-frontend/src/VideoPage/PreviewWall.js:54-128 | the preview draws the same bricks, videos and drop targets as the video page, and marks broken exactly the cells the page marks broken or viewed (never both) |
| WallGrid.BrickCellAt | databrick-frontend/src/BrickPage/BrickWall.js:63-72 | the brick page highlights from the whole cache, colours every unhighlighted brick, and a click passes the brick number (NaN for a gap) |
| WallGrid.HighlightAgrees | databrick-frontend/src/VideoPage/Wall.js:86 | the video page highlights exactly the cells the brick page highlights |
| BrickWall.Click | databrick-frontend/src/BrickPage/BrickWall.js:106-133 | a cached brick is selected as it is; an uncached one is created and appended with an empty selection when the POST succeeds; a failed POST changes nothing but the open flag; the status modal is always opened |
| BrickWall.ClickGap | databrick-frontend/src/BrickPage/BrickWall.js:170 | clicking a gap opens nothing visible when no brick was selected, since the modal is drawn only with a selection |
| BrickWall.Resync | databrick-frontend/src/BrickPage/BrickWall.js:31-36 | the selection is re-read from the cache by id, and disappears when the brick has left the cache |
| BrickWall.CloseStatus | databrick-frontend/src/BrickPage/BrickWall.js:135-138 | closing the status modal drops the selection and hides it |
| BrickWall.OpenAdd | databrick-frontend/src/BrickPage/BrickWall.js:140-143 | opening the add sub-modal hides the status modal |
| BrickWall.CloseAdd | databrick-frontend/src/BrickPage/BrickWall.js:145-148 | closing the add sub-modal reopens the status modal with the same brick |
| BrickWall.OpenRemove | databrick-frontend/src/BrickPage/BrickWall.js:150-154 | opening the remove sub-modal records the status and hides the status modal |
| BrickWall.CloseRemove | databrick-frontend/src/BrickPage/BrickWall.js:156-160 | closing the remove sub-modal clears the status and reopens the status modal with the same brick |
| BrickWall.ClickThenResync | databrick-frontend/src/BrickPage/BrickWall.js:121-125 | after a brick is created, the resync effect selects the server's brick and the modal is shown |
| BrickWall.SubModalRoundTrip | databrick-frontend/src/BrickPage/BrickWall.js:140-160 | opening either sub-modal from the status modal and closing it restores the modal state exactly |
| Allocation.Available | databrick-frontend/src/VideoPage/VideoList.js:190-194 | a brick is kept exactly when the location at its array index is missing or holds no video; no repeats appear when the brick list has none |
| Allocation.AvailableInOrder | databrick-frontend/src/VideoPage/VideoList.js:190-194 | the free bricks are a subsequence of the brick list: `filter` keeps their order |
| Allocation.PermuteElems | databrick-frontend/src/VideoPage/VideoList.js:209-212 | a random reordering keeps exactly the same items |
| Allocation.PermuteDistinct | databrick-frontend/src/VideoPage/VideoList.js:209 | a random reordering of distinct bricks leaves them distinct |
| Allocation.Resolve | databrick-frontend/src/VideoPage/VideoList.js:210-211 | each selected id is looked up in the video list, position by position |
| Allocation.Cycle | databrick-frontend/src/VideoPage/VideoList.js:214-218 | the i-th brick receives the video at position i mod k |
| Allocation.Spread | databrick-frontend/src/VideoPage/VideoList.js:214-218 | the loop fails exactly when one of the videos it reaches is undefined; otherwise brick i is paired with video i mod k |
| Allocation.Allocate | databrick-frontend/src/VideoPage/VideoList.js:178-219 | an alert exactly when nothing is selected, nothing when the dialog is declined, an alert exactly when no brick is free; a distribution covers every free brick, and a single selected video goes to all of them in order |
| Allocation.ConfirmAllocation | databrick-frontend/src/VideoPage/VideoList.js:187 | the page allocates over both walls' bricks, east wall first |
| Allocation.SelectionAfter | databrick-frontend/src/VideoPage/VideoList.js:238 | the selection is cleared only when a distribution was computed; every early return keeps it |
| Allocation.AllocationKeys | databrick-frontend/src/VideoPage/VideoList.js:190-219 | the distribution's bricks are exactly the free bricks, each once when the brick list has no repeats: a brick already holding a video is never reassigned |
| Allocation.AllocationVideos | databrick-frontend/src/VideoPage/VideoList.js:201-219 | every brick of a distribution receives one of the selected videos, and one present in the video list |
| Allocation.ListedSelectionDistributes | databrick-frontend/src/VideoPage/VideoList.js:201-219 | when every selected id names a listed video, a confirmed allocation with a free brick always yields a distribution |
| Allocation.CycleCount | databrick-frontend/src/VideoPage/VideoList.js:214-218 | in n round-robin picks over k distinct ids, the id at position j is picked n div k times, plus one when j < n mod k |
| Allocation.AllocationBalanced | databrick-frontend/src/VideoPage/VideoList.js:207-219 | with several distinct videos selected, each gets n div k or n div k + 1 of the n free bricks, whatever the shuffles, and no other video gets any |
| Allocation.PositionalEligible | databrick-frontend/src/VideoPage/VideoList.js:192 | when locations are listed in number order from 1, the positional index finds the location carrying the brick's number |
| Allocation.WallAllocation | databrick-frontend/src/VideoPage/VideoList.js:187-219 | on the real walls the distribution names each free brick of 1..226 once, and with locations in number order none of them already holds a video |
| VideoListing.RemoveAt | databrick-frontend/src/VideoPage/VideoList.js:139 | `splice(i, 1)` keeps the items before i and shifts the later ones down by one |
| VideoListing.InsertAt | databrick-frontend/src/VideoPage/VideoList.js:140 | `splice(i, 0, x)` puts x at i, keeps the items before and shifts the later ones up by one |
| VideoListing.RemoveInsert | databrick-frontend/src/VideoPage/VideoList.js:139-140 | inserting then removing at the same position gives the list back |
| VideoListing.InsertRemove | databrick-frontend/src/VideoPage/VideoList.js:139-140 | removing an item and inserting it back where it was gives the list back |
| VideoListing.Move | databrick-frontend/src/VideoPage/VideoList.js:138-140 | the dragged item lands at the target index and the other items keep their relative order |
| VideoListing.MovePermutes | databrick-frontend/src/VideoPage/VideoList.js:138-142 | a reorder is a permutation: the multiset of videos is unchanged |
| VideoListing.MoveThenMove | databrick-frontend/src/VideoPage/VideoList.js:142-143 | because the drag continues from the new index, two successive drag-overs make one move from the first position to the last |
| VideoListing.MoveBack | databrick-frontend/src/VideoPage/VideoList.js:135-144 | dragging an item back to where it started restores the list |
| VideoListing.DragStart | databrick-frontend/src/VideoPage/VideoList.js:16-20 | starting a drag records the index only with editing control |
| VideoListing.DragOver | databrick-frontend/src/VideoPage/VideoList.js:135-144 | without editing control, without a drag, or over the dragged item nothing changes; otherwise the dragged video moves to the hovered index, the drag follows it, and the list stays a permutation |
| VideoListing.DragEnd | databrick-frontend/src/VideoPage/VideoList.js:28-32 | ending a drag forgets the index only with editing control |
| VideoListing.DragOverComposes | databrick-frontend/src/VideoPage/VideoList.js:135-144 | however many items a drag passes over, the list ends as one move from the drag's start to its current position |
| VideoListing.SelectOne | databrick-frontend/src/VideoPage/VideoList.js:87-93 | clicking the highlighted video clears the highlight; clicking any other highlights exactly that one |
| VideoListing.Without | databrick-frontend/src/VideoPage/VideoList.js:112 | filtering out an id keeps exactly the other ids as a subsequence of the selection, in their order, and changes nothing when the id is absent |
| VideoListing.WithoutKeepsCopies | databrick-frontend/src/VideoPage/VideoList.js:112 | every other id keeps its number of copies |
| VideoListing.Toggle | databrick-frontend/src/VideoPage/VideoList.js:162-168 | ticking flips exactly the given id's membership and keeps a repeat-free selection repeat-free |
| VideoListing.ToggleTwice | databrick-frontend/src/VideoPage/VideoList.js:162-168 | ticking and unticking a box restores the selection exactly |
| VideoListing.SelectAll | databrick-frontend/src/VideoPage/VideoList.js:170-176 | ticking "select all" selects exactly the listed videos' ids, one per video; unticking selects none |
| VideoListing.DeleteVideo | databrick-frontend/src/VideoPage/VideoList.js:104-120 | after the server accepts a deletion the video leaves both the list and the allocation selection, and nothing else does; both remain subsequences of what they were, so the user-arranged order survives |
| VideoListing.DeleteVideoKeepsCopies | databrick-frontend/src/VideoPage/VideoList.js:104-120 | every other video keeps its number of copies in the list, and every other id in the selection, so with the subsequence clauses the result is exactly the filter |
| VideoListing.DropVideo | databrick-frontend/src/VideoPage/VideoList.js:111 | filtering the list keeps exactly the videos with other ids, as a subsequence of the list in its order |
| VideoListing.DropVideoKeepsCopies | databrick-frontend/src/VideoPage/VideoList.js:111 | every video with another id keeps its number of copies |
| VideoListing.SelectionStaysListed | databrick-frontend/src/VideoPage/VideoList.js:104-176 | the allocation selection only ever names listed videos: ticking, selecting all and deleting keep it so |
| UploadChecks.EffectiveRate | databrick-frontend/src/VideoPage/VideoUploadModal.js:203 | an unreported frame rate falls back to the allowed one, so it can never fail the check; a reported one is used as it is |
| UploadChecks.ValidateFile | databrick-frontend/src/VideoPage/VideoUploadModal.js:166-304 | unsupported exactly for types that are neither video nor image; a load failure exactly when a supported file cannot be read; a video is rejected for frame rate, then duration, then size, and accepted exactly when it passes all three; an image is accepted exactly when large enough and otherwise too small |
| UploadChecks.GifJudgedAsImage | databrick-frontend/src/VideoPage/VideoUploadModal.js:177-181 | `image/gif` already starts with `image/`, so the separate GIF branch is unreachable and a GIF is judged by its size alone, whatever its duration or frame rate |
| UploadChecks.NoNeedCropping | databrick-frontend/src/VideoPage/VideoUploadModal.js:65-110 | the probe never settles for a type that is neither `image/` nor `video/`, rejects exactly for such a file the browser cannot read, and answers true exactly when a readable file's size equals a non-zero minimum |
| UploadChecks.ExactSizePassesSizeCheck | databrick-frontend/src/VideoPage/VideoUploadModal.js:112-128 | a file spared from cropping passes every size check: an image is then accepted outright, a video can fail only on frame rate or duration |
| UploadChecks.Target | databrick-frontend/src/VideoPage/CropModal.js:21 | the crop target is the given resolution, or 854 by 480 when none is given |
| UploadChecks.FormatValid | databrick-frontend/src/VideoPage/CropModal.js:32-44 | the format flag holds until a file is given, then exactly for video and image types |
| UploadChecks.ResolutionValid | databrick-frontend/src/VideoPage/CropModal.js:57-87 | the resolution flag holds until a readable file is given, then exactly when both sides reach the target |
| UploadChecks.ConfirmCrop | databrick-frontend/src/VideoPage/CropModal.js:97-103 | the Crop button reports success exactly when the cropper has produced coordinates, and passes them on |
| UploadChecks.CancelCrop | databrick-frontend/src/VideoPage/CropModal.js:110 | the X button reports no coordinates and no success |
| UploadChecks.CropGateMatchesValidation | databrick-frontend/src/VideoPage/VideoUploadModal.js:537-541 | a file of another type can never be cropped; with the dialog's own target a readable video or image can be cropped exactly when the upload check would not call it too small |
| UploadQueue.RemoveRecord | databrick-frontend/src/VideoPage/VideoUploadModal.js:133-164 | the file's name leaves all six records and every other name keeps its entries |
| UploadQueue.Fresh | databrick-frontend/src/VideoPage/VideoUploadModal.js:325 | keeps exactly the chosen files whose name is not already listed, as a subsequence of the chosen files in their order |
| UploadQueue.FreshKeepsCopies | databrick-frontend/src/VideoPage/VideoUploadModal.js:325 | every kept file keeps its number of copies, so with the subsequence clause the result is exactly the filter |
| UploadQueue.RemoveRecords | databrick-frontend/src/VideoPage/VideoUploadModal.js:330 | every duplicate's records are forgotten and the records of every other name are kept |
| UploadQueue.FileChange | databrick-frontend/src/VideoPage/VideoUploadModal.js:311-338 | a file whose name is already listed is never appended again, the list keeps its old files at the front and appends `Fresh` of the chosen files, which that member's contract makes a subsequence, so the new ones come in the order they were chosen; agreeing to the prompt only clears the duplicates' records, and every other record is kept |
| UploadQueue.DuplicatesOf | databrick-frontend/src/VideoPage/VideoUploadModal.js:315 | exactly the chosen files whose name is already listed |
| UploadQueue.ChoosingAgainAddsNothing | databrick-frontend/src/VideoPage/VideoUploadModal.js:311-338 | choosing the same files again leaves the list as it was, whatever the answer to the prompt |
| UploadQueue.RemoveFile | databrick-frontend/src/VideoPage/VideoUploadModal.js:306-309 | removal drops exactly the files with that name, leaves the others as a subsequence in their order, and forgets that name's records, keeping all others |
| UploadQueue.RemoveFileKeepsCopies | databrick-frontend/src/VideoPage/VideoUploadModal.js:306-309 | every file named otherwise keeps its number of copies, and removing the same name again changes nothing |
| UploadQueue.MarkOne | databrick-frontend/src/VideoPage/VideoUploadModal.js:116-121 | one await of the loop marks the file exactly when its probe answers true, and keeps every earlier mark |
| UploadQueue.MarkExact | databrick-frontend/src/VideoPage/VideoUploadModal.js:112-128 | a file already marked stays marked and nothing becomes marked unless a listed file of that name needs no crop; with no stalling file, every listed file that needs no crop becomes marked |
| UploadQueue.MarkReaches | databrick-frontend/src/VideoPage/VideoUploadModal.js:112-128 | a file that needs no crop and comes before every stalling file is marked; a rejected probe does not stop the loop |
| UploadQueue.MarkStopsAtStall | databrick-frontend/src/VideoPage/VideoUploadModal.js:112-128 | at the first unmarked file whose probe never settles the loop waits for good: only names marked before or by an earlier file can be marked |
| UploadQueue.TextFileStallsMarking | databrick-frontend/src/VideoPage/VideoUploadModal.js:112-128 | a `text/plain` file chosen before an 854 by 480 image leaves the image "Not cropped"; chosen after it, the image is marked |
| UploadQueue.MarkExactThenAllCropped | databrick-frontend/src/VideoPage/VideoUploadModal.js:464 | after the marking effect the Upload button's cropping condition holds only if each file was cropped already or needs no crop, and with no stalling file that is enough |
| UploadQueue.CloseCrop | databrick-frontend/src/VideoPage/VideoUploadModal.js:453-462 | a successful crop marks the file being cropped and stores coordinates when given; any other close changes no record |
| UploadQueue.CropDialogMarks | databrick-frontend/src/VideoPage/CropModal.js:97-110 | through the crop dialog a file becomes cropped exactly when the cropper reported an area before the user confirmed; the X button never marks it |
| UploadQueue.CropOffsets | databrick-frontend/src/VideoPage/VideoUploadModal.js:357-358 | the offsets sent are the stored coordinates, or 0 and 0 when none are stored |
| UploadQueue.Enqueue | databrick-frontend/src/VideoPage/VideoUploadModal.js:416-434 | exactly the files with no title clash and no recorded status are queued, as a subsequence of the chosen files in their order; a title clash is recorded as failed with the duplicate message; no other record changes |
| UploadQueue.EnqueueKeepsCopies | databrick-frontend/src/VideoPage/VideoUploadModal.js:416-434 | the queue holds every copy of each file it takes and none of a file with a title clash or a recorded status |
| UploadQueue.MaxConcurrent | databrick-frontend/src/VideoPage/VideoUploadModal.js:344 | the limit is the configured number, or 1 when it is missing, not a number or 0 |
| UploadQueue.Pump | databrick-frontend/src/VideoPage/VideoUploadModal.js:407-414 | files start in queue order; at least one starts when any waits and a slot is free; the running count never passes the limit; afterwards the queue is empty or every slot is taken |
| UploadQueue.Finish | databrick-frontend/src/VideoPage/VideoUploadModal.js:400-403 | a finished upload frees a slot and the next waiting file starts, keeping queue order and the limit |
| UploadQueue.StartUploads | databrick-frontend/src/VideoPage/VideoUploadModal.js:340-435 | uploads start in queue order, never more than the limit at once, and with a positive limit at least one file starts when any is queued |
| UploadQueue.FailureText | databrick-frontend/src/VideoPage/VideoUploadModal.js:393-398 | a failed upload's message is the server's `file` error if given, else the reply body if given, else the error's own message if given, else "An unexpected error occurred."; it is never empty and is always one of those four |
| UploadQueue.Settle | databrick-frontend/src/VideoPage/VideoUploadModal.js:386-399 | a success appends the server's video to the list and records the file as succeeded; a failure keeps the list and records the file as failed with `FailureText`'s message; only that name's status and error change |
| UploadQueue.ValidationMessageRecorded | databrick-frontend/src/VideoPage/VideoUploadModal.js:349-399 | a refusal by `validateFile`, which has no server reply, records its own message and a failed status |
| UploadQueue.SettledNotRequeued | databrick-frontend/src/VideoPage/VideoUploadModal.js:386-431 | after an upload settles, a later press of Upload skips that file, whether it succeeded or failed, and queues every other file as before |
| UploadQueue.Reset | databrick-frontend/src/VideoPage/VideoUploadModal.js:26-39 | closing the dialog empties the list, forgets every record and clears the uploading flag |
| IsoDates.LexTrichotomy | databrick-frontend/src/Shows/ShowManagementPage.js:94-102 | string comparison of the date fields is a strict total order: exactly one of less, equal or greater holds |
| IsoDates.LexTransitive | databrick-frontend/src/Shows/ShowManagementPage.js:94-102 | string comparison is transitive |
| IsoDates.DigitsOrder | databrick-frontend/src/Shows/ShowManagementPage.js:85 | zero-padded fixed-width numerals compare as strings exactly as the numbers compare |
| IsoDates.Iso | databrick-frontend/src/Shows/ShowManagementPage.js:85 | the `YYYY-MM-DD` form has ten characters with dashes at positions 4 and 7 |
| IsoDates.IsoChronological | databrick-frontend/src/Shows/ShowManagementPage.js:94-102 | on valid dates, the string order of the ISO forms is the calendar order, and equal strings mean equal dates |
| IsoDates.AfterTodayCarries | databrick-frontend/src/Shows/ShowManagementPage.js:94-102 | a start after today and an end not before the start put the end after today too |
| Shows.CurrentUserId | databrick-frontend/src/VideoPage/VideoPage.js:24-25 | only an artist is compared by the stored user id; everybody else counts as null |
| Shows.UserAccess | databrick-frontend/src/VideoPage/VideoPage.js:131-138 | access exactly for admins and for the artist whose stored id is the show's assigned artist |
| Shows.OneArtistPerShow | databrick-frontend/src/Shows/ShowDetailsPage.js:107-114 | two different non-admin users never both have access to one show |
| Shows.VideoEditLocked | databrick-frontend/src/VideoPage/VideoPage.js:120-128 | admins are never locked; anyone else is locked exactly when the show is approved or pending approval, or they lack access |
| Shows.EditingControlHolders | databrick-frontend/src/VideoPage/VideoPage.js:120-138 | editing control belongs exactly to admins and to the assigned artist of a show that is not under review |
| Shows.ShowClick | databrick-frontend/src/Shows/ShowManagementPage.js:194-202 | the video page of that show opens unless an artist clicks a show that is approved or pending approval; the approved case gets its own refusal |
| Shows.ListAgreesWithVideoPage | databrick-frontend/src/Shows/ShowManagementPage.js:194-202 | an artist the list lets through with access gets editing control, and a show the list refuses is locked on the video page |
| Shows.ButtonsNest | databrick-frontend/src/Shows/ShowManagementPage.js:483-562 | Complete Design and Approve/Deny appear only inside the action block, Approve/Deny only with Delete, and no role is offered both submitting and reviewing |
| Shows.WithStatus | databrick-frontend/src/Shows/ShowManagementPage.js:216-253 | only a 200 reply changes the list, and then only the status of the shows with that id; length and all other fields are kept |
| Shows.CompleteDesign | databrick-frontend/src/Shows/ShowManagementPage.js:216-253 | on a 200 reply every show with that id becomes pending approval and no other field or show changes; any other reply or a failed request leaves the list as it was; length and order are kept |
| Shows.ApproveShow | databrick-frontend/src/Shows/ShowManagementPage.js:254-290 | on a 200 reply every show with that id becomes approved and nothing else changes; otherwise the list is unchanged |
| Shows.DenyShow | databrick-frontend/src/Shows/ShowManagementPage.js:291-328 | on a 200 reply every show with that id goes back to in design and nothing else changes; otherwise the list is unchanged |
| Shows.DenyUndoesComplete | databrick-frontend/src/Shows/ShowManagementPage.js:291-328 | denying a freshly submitted design gives back the original list |
| Shows.ReviewCycle | databrick-frontend/src/Shows/ShowManagementPage.js:216-328 | submission is offered to the assigned artist of a show in design, then locks the artist out and offers the admin the review; a denial restores the artist's editing |
| Shows.DeleteShow | databrick-frontend/src/Shows/ShowManagementPage.js:176-192 | a confirmed, successful delete removes exactly the shows with that id and keeps the order of the rest; otherwise the list is unchanged |
| Shows.DropShow | databrick-frontend/src/Shows/ShowManagementPage.js:183 | the filter keeps exactly the shows with another id, as a subsequence |
| Shows.FindShows | databrick-frontend/src/Shows/ShowManagementPage.js:154-170 | exactly the shows whose title contains the term ignoring case (or any, for a term that `trim` empties, Unicode space separators included) and whose status passes the menu, in list order |
| Shows.FindEverything | databrick-frontend/src/Shows/ShowManagementPage.js:159-167 | a blank term with the All menu lists every show |
| Shows.IdeographicSpaceBlank | databrick-frontend/src/Shows/ShowManagementPage.js:84-108 | a name made only of U+3000 spaces counts as missing, and a search term made only of them lists every show, as `trim` removes every Unicode space separator |
| Shows.FindIdempotent | databrick-frontend/src/Shows/ShowManagementPage.js:172-174 | filtering the filtered list again changes nothing |
| Shows.SubmittedLeavesDesignView | databrick-frontend/src/Shows/ShowManagementPage.js:216-253 | once submitted, a show no longer appears under the "in design" menu |
| Shows.CheckCreate | databrick-frontend/src/Shows/ShowManagementPage.js:84-108 | a missing field (one that `trim` empties, Unicode space separators included) is reported first; the form passes exactly when all fields are there, both dates are after today, the end is not before the start and the frame count is a whole number at least 1 |
| Shows.CreateAcceptsChronology | databrick-frontend/src/Shows/ShowManagementPage.js:94-108 | on real dates the form accepts exactly shows starting after today and not ending before they start, with a positive whole frame count |
| Shows.CreateShow | databrick-frontend/src/Shows/ShowManagementPage.js:118-138 | a passing form with a created show appends it and clears the form; anything else leaves list and form as they were |
| Shows.ClearedFormRejected | databrick-frontend/src/Shows/ShowManagementPage.js:126-131 | the cleared form fails the completeness check |
| Shows.TypeFrameCount | databrick-frontend/src/Shows/ShowDetailsPage.js:152-158 | a typed value is kept exactly when it is all digits; otherwise the field keeps its value |
| Shows.FieldHoldsDigits | databrick-frontend/src/Shows/ShowDetailsPage.js:152-158 | whatever is typed, the field holds the server's number or a digit string |
| Shows.SaveDetails | databrick-frontend/src/Shows/ShowDetailsPage.js:43-73 | a request goes out exactly when the frame count is unchanged or the change is confirmed; a 200 reply shows the edited values, records the saved count and closes the editor; otherwise nothing changes |
| Shows.SaveSettles | databrick-frontend/src/Shows/ShowDetailsPage.js:45-66 | after a successful save, saving again asks nothing and changes nothing |
| Shows.RetypedValuePrompts | databrick-frontend/src/Shows/ShowDetailsPage.js:45 | retyping the number the server sent still asks for confirmation, since a string never strictly equals a number |
| Shows.DetailsEditLocked | databrick-frontend/src/Shows/ShowDetailsPage.js:101-104 | locked exactly while the show is approved or pending approval |
| Shows.LocksAgree | databrick-frontend/src/Shows/ShowDetailsPage.js:101-104 | for non-admins the frame count is locked whenever the wall is; admins keep the wall but not the frame count of a show under review |
| BrickStatus.ActionRoundTrip | backend/bricks/constants.py:4-10 | a stored action name reads back as that action, and every accepted action type is the stored name of what it parses to |
| BrickStatus.ParseAction | backend/bricks/api/views.py:52-63 | an action type is accepted exactly when it is `add` or `remove` |
| BrickStatus.HistoryOf | backend/bricks/api/views.py:98 | a brick's history holds exactly the log rows of that brick, and stays in time order when the log is |
| BrickStatus.ModifyStatus | backend/bricks/api/views.py:31-80 | on the form text the dialogs send: an unknown brick fails first, then a missing or empty status id, and the text `0` counts as present; every failure is a 400; the request succeeds exactly for a stored brick, a status id that reads as an integer naming a stored status and an `add`/`remove` action; the brick gains or loses the status, no other brick and no catalog entry changes, and one history row is appended exactly when the set changed |
| BrickStatus.ZeroStatusIdUnknown | backend/bricks/api/views.py:38-45 | a status id sent as the text `0` passes the presence check and fails as an unknown status |
| BrickStatus.ModifyKeepsWellFormed | backend/bricks/models.py:14-27 | a successful request keeps every brick's statuses equal to the replay of its history, rows in time order and every reference valid |
| BrickStatus.ModifyIdempotent | backend/bricks/api/views.py:52-72 | repeating a successful request changes nothing and logs nothing |
| BrickStatus.AddThenRemove | backend/bricks/api/views.py:51-72 | adding a missing status, its id sent as decimal text, and removing it again restores the brick and leaves an add row followed by a remove row |
| BrickStatus.BrickHistory | backend/bricks/api/views.py:93-103 | fails exactly for an unknown brick; otherwise lists exactly that brick's rows in time order |
| BrickStatus.CreateBrick | backend/bricks/api/serializers.py:10-24 | creation succeeds exactly for a new id in 1..226 with the required `statuses` list present and every listed name valid; the brick then starts with no status, the listed ones being dropped |
| BrickStatus.CreateNeedsStatuses | backend/bricks/api/serializers.py:10-13 | the wall's request, a new id with an empty `statuses` list, creates an empty brick, and the same request without the list is refused |
| BrickStatus.CreateKeepsWellFormed | backend/bricks/models.py:14-17 | creating a brick keeps the database invariant |
| BrickStatus.DropStatusRows | backend/bricks/models.py:25 | exactly the rows of other statuses remain, still in time order |
| BrickStatus.DeleteStatus | backend/bricks/models.py:17-25 | deleting a status removes it from the catalog and from every brick, cascades away exactly its rows, and keeps every brick |
| BrickStatus.HistoryOfDrop | backend/bricks/models.py:24-25 | dropping a status's rows and then taking a brick's history equals taking the history and then dropping the rows |
| BrickStatus.ReplayDrop | backend/bricks/models.py:25 | replaying a history without a status's rows gives the replayed set without that status |
| BrickStatus.DeleteKeepsWellFormed | backend/bricks/models.py:17-25 | deleting a status keeps every brick equal to the replay of its history |
| StatusCache.BrickPageAdminOnly | databrick-frontend/src/BrickPage/BrickPage.js:41-52 | on the brick page editing control and entry coincide and belong to admins, who can also edit on the video page |
| StatusCache.ControlsNeedAdmin | databrick-frontend/src/BrickPage/StatusList.js:92-97 | Create, Assign and Add appear exactly for admins; Delete and Remove are enabled exactly for an admin with a selected status, so a repeat click on the selected status disables Remove |
| StatusCache.FindStatus | databrick-frontend/src/BrickPage/StatusList.js:43 | None exactly when no status has the id; otherwise a listed status with that id |
| StatusCache.InvalidateViewing | databrick-frontend/src/BrickPage/BrickPage.js:30-35 | the viewed status is cleared exactly when no catalog status has its id, and is otherwise kept |
| StatusCache.InvalidateSettles | databrick-frontend/src/BrickPage/BrickPage.js:30-35 | running the effect again changes nothing |
| StatusCache.SelectInList | databrick-frontend/src/BrickPage/StatusList.js:38-46 | a repeat click clears selection and view; another click selects and views the same catalog status with that id, or nothing when there is none |
| StatusCache.SelectInListTwice | databrick-frontend/src/BrickPage/StatusList.js:38-46 | clicking a listed status twice returns to no selection and no view |
| StatusCache.SelectOnBrick | databrick-frontend/src/BrickPage/BrickStatusModal.js:62-68 | a repeat click clears the selection; another click selects one of the brick's own statuses with that id, and only if it has one |
| StatusCache.ShownHistory | databrick-frontend/src/BrickPage/BrickStatusModal.js:40-48 | a failed fetch lists nothing; otherwise every row is listed, in reverse order |
| StatusCache.HistoryNewestFirst | databrick-frontend/src/BrickPage/BrickStatusModal.js:114-120 | over the server's history, the modal lists exactly the brick's rows, newest first |
| StatusCache.ReversedNewestFirst | databrick-frontend/src/BrickPage/BrickStatusModal.js:114-120 | a history in time order, reversed, holds the same rows with the newest first |
| StatusCache.AddStatus | databrick-frontend/src/BrickPage/AddStatusModal.js:28-66 | an empty name or one already used exactly sends nothing; otherwise a created status is appended and the name cleared, and a failure changes nothing |
| StatusCache.AddKeepsNamesDistinct | databrick-frontend/src/BrickPage/AddStatusModal.js:31-38 | the catalog never gains two statuses with one name |
| StatusCache.DropStatus | databrick-frontend/src/BrickPage/RemoveStatusModal.js:31 | exactly the statuses with another id remain, in order; nothing changes when none has the id |
| StatusCache.StripEverywhere | databrick-frontend/src/BrickPage/RemoveStatusModal.js:34-42 | every brick keeps its id and loses exactly the deleted status |
| StatusCache.DeleteCatalogStatus | databrick-frontend/src/BrickPage/RemoveStatusModal.js:26-50 | a successful delete drops the status from the catalog and every brick and clears the selection; a failure changes nothing |
| StatusCache.DeletedStatusForgotten | databrick-frontend/src/BrickPage/RemoveStatusModal.js:26-50 | after a delete no brick carries the status, every other status stays, the viewed status is cleared and no brick is highlighted for it |
| StatusCache.AvailableStatuses | databrick-frontend/src/BrickPage/AddStatusToBrickModal.js:31 | exactly the catalog statuses the brick lacks, in catalog order |
| StatusCache.ReplaceById | databrick-frontend/src/BrickPage/AddStatusToBrickModal.js:75-77 | every brick with the reply's id becomes the reply and every other brick is kept |
| StatusCache.ReplaceFinds | databrick-frontend/src/BrickPage/RemoveStatusFromBrickModal.js:40-42 | after the reply for a cached brick, looking that id up finds the reply |
| StatusCache.ReplaceIdempotent | databrick-frontend/src/BrickPage/AssignStatusModal.js:76-78 | applying the same reply twice changes nothing more |
| StatusCache.AddToBrick | databrick-frontend/src/BrickPage/AddStatusToBrickModal.js:57-88 | with a selection and a reply the cache takes the reply, the status leaves the choices and the selection clears; otherwise nothing changes |
| StatusCache.ChoicesStayInStep | databrick-frontend/src/BrickPage/AddStatusToBrickModal.js:31-78 | after a reply adding the chosen status, the pruned choices are exactly the statuses the updated brick lacks |
| StatusCache.BricksFrom | databrick-frontend/src/BrickPage/AssignStatusModal.js:15-19 | exactly the ids from `lo` to 226 that are uncached or lack the status, ascending |
| StatusCache.AvailableBricks | databrick-frontend/src/BrickPage/AssignStatusModal.js:10-31 | exactly the bricks 1..226 that are uncached or lack the status, in ascending order |
| StatusCache.EmptyCacheOffersAll | databrick-frontend/src/BrickPage/AssignStatusModal.js:15-19 | with nothing cached, every brick 1..226 is offered |
| StatusCache.AssignStatus | databrick-frontend/src/BrickPage/AssignStatusModal.js:37-88 | no choice does nothing; an uncached brick's created record is appended first; a reply then replaces the brick and resets the choice, and a failure keeps the choice |
| StatusCache.AssignedBrickLeavesChoices | databrick-frontend/src/BrickPage/AssignStatusModal.js:23-31 | once the server confirms the status on a cached or created brick, that brick is no longer offered |
| StatusCache.RemoveRequest | databrick-frontend/src/BrickPage/RemoveStatusFromBrickModal.js:27-30 | the request names the brick and the selected status and is read by the server as a remove |
| StatusCache.RemoveRequestAccepted | databrick-frontend/src/BrickPage/RemoveStatusFromBrickModal.js:26-37 | for a stored brick and an existing status, the request with the status id as form text is accepted and answers the brick's statuses minus that one |
| StatusCache.RemoveFromBrick | databrick-frontend/src/BrickPage/RemoveStatusFromBrickModal.js:26-48 | a reply replaces the brick by id and a failure leaves the cache; either way a non-empty result message is set |
| StatusCache.RemoveDialogCycle | databrick-frontend/src/BrickPage/RemoveStatusFromBrickModal.js:11-20 | after an answer the dialog shows the result instead of the prompt, and closing brings the prompt back |
| DecimalText.Decimal | backend/videos/api/views.py:276 | the decimal form of a number is a non-empty digit string with no leading zero except for 0 itself |
| DecimalText.DecimalRoundTrip | backend/videos/api/views.py:276 | reading back the decimal form gives the number |
| DecimalText.DecimalInjective | backend/videos/api/views.py:266-277 | different numbers have different decimal forms |
| DecimalText.ParseInt | backend/videos/api/views.py:47 | `int` accepts exactly a digit string with an optional sign and no other characters; it reads the digits at their value, negated after a minus sign, so only a minus sign gives a negative number |
| DecimalText.SignedDecimal | backend/videos/api/views.py:266-277 | `str` of an integer is non-empty and starts with a minus sign exactly when the integer is negative |
| DecimalText.ParseSignedDecimal | backend/videos/api/views.py:234 | `int` reads back the decimal form of every integer, negative ones included |
| DecimalText.SignedZero | backend/videos/api/views.py:47-48 | a sign before zero still reads as 0, so `-0` unassigns like `0` |
| DecimalText.ParseDecimal | backend/videos/api/views.py:234 | `int` reads back the decimal form of every natural number |
| DecimalText.ZeroDigits | backend/videos/api/views.py:47 | a digit string reads as 0 exactly when every digit is `0` |
| ShowStore.SaveShow | backend/videos/models.py:48-81 | the show is stored and no video changes; the blank video is regenerated exactly on the first save or a frame-count change; a show without locations gains empty locations 1..226 and existing locations are never touched |
| ShowStore.SaveShowKeepsConsistent | backend/videos/models.py:78-81 | saving a show whose frame count is in range keeps the tables consistent, and a show that had no locations then has all 226 |
| ShowStore.LocationCheckMatches | backend/videos/models.py:185-188 | `Location.clean` accepts a location exactly when it keeps its video within its own show |
| ShowStore.SaveVideoChecked | backend/videos/models.py:167-170 | a video save is refused exactly when the show is unknown or the video is already stored under another show; otherwise only that video's show changes |
| ShowStore.SaveVideoKeepsConsistent | backend/videos/models.py:167-170 | a video save that passes the check keeps the tables consistent |
| ShowStore.UncheckedMoveBreaksLocation | backend/videos/models.py:167-170 | the check is needed: moving a video that fills a location to another show would leave that location holding a video of a different show |
| ShowStore.DeleteVideo | backend/videos/models.py:179 | deleting a video removes only it and empties exactly the locations that held it |
| ShowStore.DeleteVideoKeepsConsistent | backend/videos/models.py:179 | after a video is deleted no location refers to it and the tables stay consistent |
| ShowStore.DeleteVideosOf | backend/videos/api/views.py:69-71 | exactly the show's videos are removed, every other video keeps its show, and exactly the locations that held a removed video are emptied |
| ShowStore.AssignArtist | backend/videos/api/views.py:37-53 | a missing or empty id is a 400, then an unknown show a 404, then an id `int` cannot read a server error; otherwise the id text is stored, any non-zero id puts the show in design, 0 unassigns it unless it is approved, and nothing else changes |
| ShowStore.AssignThenUnassign | backend/videos/api/views.py:46-50 | assigning then unassigning a show leaves it unassigned, and then only an admin has access to it |
| ShowStore.AssignKeepsConsistent | backend/videos/api/views.py:37-53 | assigning an artist keeps the tables consistent |
| ShowStore.PartialUpdate | backend/videos/api/views.py:61-74 | an unknown show is a 404, and a frame count outside 0..9000 or a status that is not one of the five choices a 400; otherwise the count and status are stored with no transition check, the show's videos are deleted exactly when the count is truthy (not 0) and differs from the stored one, and the blank video is regenerated exactly when the stored count changes |
| ShowStore.FrameChangeEmptiesShow | backend/videos/api/views.py:67-71 | a new non-zero frame count leaves the show with no videos and an empty wall, keeps every other show's videos and keeps the tables consistent |
| ShowStore.ZeroFrameCountKeepsVideos | backend/videos/api/views.py:68 | a frame count of 0 is stored and regenerates the blank video but, being falsy, deletes none of the show's videos |
| ShowStore.StatusPatchUnchecked | backend/videos/api/serializers.py:24-32 | an approved show PATCHed to `unassigned` is stored as unassigned, and an unknown status text is a 400 |
| ShowStore.PatchLocation | backend/videos/api/views.py:181-204 | as written: every failure is a 400; the PATCH succeeds exactly for a stored show, a readable number naming a stored location and a stored video or none; only that location's video changes, to any stored video |
| ShowStore.PatchIgnoresReadOnly | backend/videos/api/serializers.py:15-21 | the read-only number and show fields of a PATCH make no difference |
| ShowStore.PatchCrossShow | backend/videos/api/views.py:194-199 | as written, a PATCH succeeds in putting another show's video on a show's wall, which breaks consistency |
| ShowStore.PatchLocationChecked | backend/videos/models.py:185-188 | with the location's own check applied, a PATCH succeeds exactly when the written PATCH would and the video is of the same show or none, and then does what the written PATCH does |
| ShowStore.PatchCheckedKeepsConsistent | backend/videos/models.py:185-188 | the checked PATCH keeps the tables consistent and changes only the one location |
| ShowStore.Filled | backend/videos/api/views.py:212 | exactly the show's locations that hold a video |
| ShowStore.ClearLocations | backend/videos/api/views.py:206-218 | an unknown show is a 404; otherwise exactly the show's locations are emptied, nothing else changes and the reply counts the ones that held a video |
| ShowStore.ClearTwice | backend/videos/api/views.py:206-218 | clearing keeps the tables consistent and a second clear finds nothing to clear |
| ShowStore.DistributionKey | backend/videos/api/views.py:226-227 | a key yields a location text exactly when it is `brickDistribution[` + text + `]` |
| ShowStore.Put | backend/videos/api/views.py:229 | dict assignment replaces the value of an existing key in place and appends a new key at the end |
| ShowStore.Collect | backend/videos/api/views.py:224-229 | every collected key comes from a `brickDistribution[N]` field of the request |
| ShowStore.ApplyAll | backend/videos/api/views.py:233-245 | the upsert creates exactly the named locations that were missing and leaves every location no entry names as it was |
| ShowStore.ApplyAllLastWins | backend/videos/api/views.py:241-245 | a location holds the video of the last entry naming it |
| ShowStore.Resolve | backend/videos/api/views.py:236-239 | an entry names its video exactly when a video has that id, and no video otherwise |
| ShowStore.ReadEntries | backend/videos/api/views.py:233-245 | entries are read in order up to the first one that cannot be stored: a field `int` cannot read, or a negative location number, which the positive-integer column of backend/videos/models.py:180 refuses; all are read exactly when every entry can be stored |
| ShowStore.SaveWallDistribution | backend/videos/api/views.py:220-247 | as written: an unknown show is a 404 and changes nothing; otherwise the storable prefix of the entries is written, and the request succeeds exactly when every entry was storable, failing with a server error otherwise |
| ShowStore.NegativeLocationCrashes | backend/videos/models.py:180 | an entry for location -5 of a stored show fails with a server error and leaves the store as it was |
| ShowStore.DistributionOutsideWall | backend/videos/api/views.py:233-245 | as written, an entry for brick 300 succeeds and creates location 300, breaking consistency |
| ShowStore.SaveWallDistributionChecked | backend/videos/models.py:180-188 | with the location's own checks, the request succeeds exactly when the show exists, every entry is readable and names a location in 1..226 and a video of the same show or none, and then writes what the written request writes |
| ShowStore.DistributionCheckedKeepsConsistent | backend/videos/models.py:180-188 | a checked distribution keeps the tables consistent and each named location holds the last video named for it |
| ShowStore.ApplyAllKeepsConsistent | backend/videos/models.py:180-188 | writing allowed entries into a stored show keeps the tables consistent |
| ShowStore.EntrySource | backend/videos/api/views.py:267-274 | an archive entry is the location's video file exactly when the location exists, holds a video and the file is on disk; otherwise the blank video |
| ShowStore.Manifest | backend/videos/api/views.py:250-283 | an unknown show is a 404; otherwise the archive has 226 entries, entry i named `i.mp4` with the source for location i |
| ShowStore.ManifestNamesDistinct | backend/videos/api/views.py:276-277 | no two archive entries share a name |
| ShowStore.ClearedWallDownloadsBlank | backend/videos/api/views.py:267-274 | after clearing the wall every archive entry is the blank video |
| ShowStore.StatusValue | backend/videos/models.py:16-21 | every stored status value is non-empty and fits the 20-character field |
| ShowStore.StatusValueRoundTrip | backend/videos/models.py:16-21 | stored values and statuses correspond one to one |
| ShowStore.StatusChoices | backend/videos/api/views.py:285-296 | one (value, display) pair per status, in declaration order |
| ShowStore.StatusChoicesComplete | backend/videos/api/views.py:285-296 | every status is listed, no value twice, and each listed value reads back as its status |
| ShowStore.ArtistUsername | backend/videos/api/serializers.py:35-42 | no artist gives no name; otherwise the id is looked up, an unknown id giving no name and text `int` cannot read a server error |
| ShowStore.UnassignedHasNoUsername | backend/videos/api/serializers.py:35-42 | a show unassigned through artist 0 has no artist name |
| ShowStore.DeleteShowCascade | backend/videos/models.py:146-179 | deleting a show removes exactly it, its videos and its locations |
| ShowStore.DeleteShowKeepsConsistent | backend/videos/models.py:146-179 | the cascade keeps the tables consistent and other shows' locations as they were |
| ErrorText.Delete | backend/videos/helpers.py:26-27 | `replace(pat, "")` never lengthens the text |
| ErrorText.DeleteSubsequence | backend/videos/helpers.py:26-27 | what `replace` leaves is drawn from the text, in order |
| ErrorText.DeleteAbsent | backend/videos/helpers.py:26-27 | a text without the pattern is left as it is |
| ErrorText.DeleteItem | backend/videos/helpers.py:27 | taking out a single character leaves none of it |
| ErrorText.Clean | backend/videos/helpers.py:18-31 | any other error keeps its text; a validation error's text loses every bracket and quote; the result is always drawn from the text in order |
| ErrorText.CleanUnwraps | backend/videos/helpers.py:22-28 | cleaning the `str` form of a validation error raised with a plain message gives back exactly that message |
| ErrorText.TameUnwraps | backend/videos/helpers.py:22-28 | a message of printable characters without brackets, quotes, backslashes or `E` survives the wrapping and the cleaning unchanged |
| MediaRules.CheckLength | backend/videos/api/cropfile.py:198-216 | equal counts match; a count above the show's by less than the 60-frame margin is to be trimmed; a larger count is too long and a smaller one too short, and exactly one of the four holds |
| MediaRules.TrimIsSmall | backend/videos/constants.py:7-8 | a trimmed file loses between 1 and 59 frames, under two seconds at 30 fps, and trimming to the show's count makes it match |
| MediaRules.ValidResolution | backend/videos/api/cropfile.py:218-225 | the strict test accepts exactly 854 by 480; the loose test accepts at least 854 wide and at least 480 high |
| MediaRules.ResolutionTests | backend/videos/api/views.py:444-456 | an exact size also passes the loose test, and the loose test is the one the browser applies with the limits the server publishes |
| MediaRules.CropClip | backend/videos/api/cropfile.py:61-94 | a cropped clip with at least the show's frames is written with exactly the show's count; one with fewer is refused |
| MediaRules.CropFileResolution | backend/videos/api/cropfile.py:36-59 | a file of exactly 854 by 480 is left alone; any other succeeds exactly when the cropped clip has enough frames, and is rewritten to the show's count |
| MediaRules.CropFileDurationAsWritten | backend/videos/api/cropfile.py:97-127 | as written: a refused frame count surfaces as an unbound-variable error for `tmp_path` instead of the frame-count message |
| MediaRules.CropFileDuration | backend/videos/api/cropfile.py:97-127 | corrected: the file is untouched exactly when the counts match, succeeds exactly for a match or a trim landing on the show's count, and a refused count reports the frame-count message; every failure is a validation error |
| MediaRules.CropFileDurationLosesMessage | backend/videos/api/cropfile.py:107-127 | for 100 frames against a show of 10, the written code reports the unbound variable where the corrected one reports the frame counts |
| MediaRules.CropFileDurationAgrees | backend/videos/api/cropfile.py:107-124 | for a matching or trimmable count the written and corrected versions agree |
| MediaRules.AfterLastDot | backend/videos/api/serializers.py:77 | the extension is the part after the last dot, has no dot itself, and is the whole name when there is no dot |
| MediaRules.InspectClip | backend/videos/api/serializers.py:94-114 | an opened clip passes exactly when it is at most five minutes long, at least 854 by 480, at 30.0 fps and has a matching or trimmable frame count |
| MediaRules.ValidateUploadAsWritten | backend/videos/api/serializers.py:59-147 | as written, once the show field has been looked up: no file (refused by the required `file` field's own check, backend/videos/models.py:148, with "No file was submitted."), then an id no show has, are refused first; a file the library cannot open reports an unbound clip variable under the outer wrapper instead of the library's error |
| MediaRules.UploadAnswerAsWritten | backend/videos/api/serializers.py:64-73 | as written: no file is refused with "No file was submitted.", the required file field's message; then an empty, missing or non-numeric `show` field is a server error, a readable id no show has is refused as "Associated show not found.", and the upload is accepted exactly when the id names a show and the written checks pass |
| MediaRules.ShowFieldAnswers | backend/videos/api/serializers.py:69-70 | a show id sent as its decimal text is looked up as that id, so the answer is the written checks' answer for that show |
| MediaRules.ShowFieldFailures | backend/videos/api/serializers.py:69-73 | a missing field and the text `abc` are server errors, and the unknown id 99 is refused as a missing show |
| MediaRules.UploadAnswer | backend/videos/api/serializers.py:72-73 | corrected: never a server error; a missing file is refused with "No file was submitted.", as the required file field does; a missing, unreadable or unknown show is refused as "Associated show not found.", and the upload is accepted exactly when the field names a stored show and the corrected checks pass |
| MediaRules.UploadAnswerAgrees | backend/videos/api/serializers.py:64-73 | for a file the library can open, the written answer is a server error exactly when a file is sent and the field does not read as an id, and otherwise equals the corrected answer |
| MediaRules.ValidateUpload | backend/videos/api/serializers.py:59-147 | corrected: a missing file is refused with "No file was submitted."; an upload is accepted exactly when file and show are present, the file opens, and it passes the video checks when it is a video or GIF, or is an image at least 854 by 480; every later failure starts with "Failed to handle file: "; an unreadable video reports the library's error |
| MediaRules.ValidateUploadAgrees | backend/videos/api/serializers.py:94-135 | for any file the library can open, the written and corrected validations agree |
| MediaRules.UnreadableVideoLosesMessage | backend/videos/api/serializers.py:116-119 | for an unreadable MP4 the written code names the clip variable while the corrected one passes the library's error through both wrappers |
| MediaRules.AcceptedUploadCropsCleanly | backend/videos/api/views.py:350-372 | a video or GIF upload the validation accepts never reaches the broken path of the frame trim, because its count was already found matching or trimmable; uploads through the image branch are not covered (see ImageTypedMp4ReachesTrimBug) |
| MediaRules.ImageTypedMp4ReachesTrimBug | backend/videos/api/views.py:350-353 | an `.mp4` sent with an `image/` type and too many frames passes validation, and the written trim then reports an unbound variable where the corrected one reports the frame counts |
| MediaRules.GifFrameRateOnlyOnServer | databrick-frontend/src/VideoPage/VideoUploadModal.js:250 | a GIF large enough for the browser, which judges GIFs as images, is still refused by the server when its frame rate is not 30 |
| MediaRules.ReportedTwice | backend/videos/api/serializers.py:116-142 | a message raised in the video or image branch reaches the client as "Failed to handle file: Failed to process … file: " followed by the message, otherwise intact |
| MediaRules.ReportedOnce | backend/videos/api/serializers.py:139-142 | a message raised outside the branches reaches the client under the outer prefix only |
| MediaRules.FrameCountReported | backend/videos/api/cropfile.py:216 | a video refused for its frame count is reported to the client with both frame counts |
| MediaRules.UnsupportedReported | backend/videos/api/serializers.py:137-142 | a file that is neither a video, a GIF nor an image is refused as an unsupported extension |
| Accounts.ByUsername | backend/authentication/views.py:25 | the position of the first user with that username, and none exactly when no user has it |
| Accounts.ByEmail | backend/authentication/views.py:28 | the position of the first user with that email, and none exactly when no user has it |
| Accounts.SendCode | backend/authentication/views.py:20-57 | an unknown username or email is a 404; otherwise the profile holds the new code lapsing ten minutes later, and it is kept even when the mail fails with a 500 |
| Accounts.Authenticate | backend/authentication/views.py:66 | a user is returned exactly when the username exists, the password matches and the account is active |
| Accounts.Login | backend/authentication/views.py:60-98 | a sign-in succeeds only for an active user matched by username or by email, whose profile holds the same unexpired code; the role is admin exactly for superusers and is never visitor; a refusal is a 400, or a 500 only when a matching active user's profile holds the code with no lapse time |
| Accounts.LoginByUsername | backend/authentication/views.py:60-79 | an active user whose profile holds the sent code, not yet lapsed, signs in with their username and password, as admin exactly when a superuser |
| Accounts.LoginByEmail | backend/authentication/views.py:60-79 | when no user of that username accepts the password, the first user with that email signs in if active, with that password and a current code |
| Accounts.LoginWithoutMatchRefused | backend/authentication/views.py:66-74 | a name that is neither the username nor the email of an active user with that password is a 400, whatever code is sent |
| Accounts.CodeThenLogin | backend/authentication/views.py:20-98 | a code sent to an active user signs that user in with their password for the following ten minutes, with the role their account deserves |
| Accounts.CodeLapses | backend/authentication/models.py:9 | once its ten minutes have passed, the code is refused with a 400 |
| Accounts.Invite | backend/authentication/views.py:214-251 | an implausible address is a 400 and an address already in use as a username or an email is a 409; otherwise exactly one inactive, non-staff user is appended, with the address as sent for its username (the Unicode normalization `create_user` applies to it is not modelled; it changes no ASCII address) and the normalized address for its email, and it is kept even when the mail fails |
| Accounts.LastAt | backend/authentication/views.py:229 | the position of the last `@` in an address that has one |
| Accounts.NormalizeEmail | backend/authentication/views.py:229 | `create_user` keeps an address without `@`, and otherwise keeps everything up to the last `@` and lower-cases the rest |
| Accounts.NormalizeEmailIdempotent | backend/authentication/views.py:229 | normalizing an address a second time changes nothing |
| Accounts.MixedCaseDomainNotRemovable | backend/authentication/views.py:229-258 | an artist invited as `a@B.c` is stored with the email `a@b.c`, so removal by `a@B.c` is a 404 while removal by `a@b.c` deletes the artist |
| Accounts.InviteKeepsWellFormed | backend/authentication/views.py:219-231 | given a fresh id, an invitation keeps usernames and ids unique |
| Accounts.Accept | backend/authentication/views.py:288-297 | only an inactive user named by the address is activated, and nothing else changes; otherwise it is a 404 |
| Accounts.InviteAcceptLogin | backend/authentication/views.py:214-297 | an invited artist cannot sign in until they accept; a first acceptance succeeds and a second one is refused; once active, the artist signs in with a sent code as an artist |
| Accounts.AcceptLogin | backend/authentication/views.py:60-98 | the same lifecycle for any inactive artist account appended under a username and email nobody has |
| Accounts.ActivateKeepsWellFormed | backend/authentication/views.py:293-294 | activating a user keeps usernames and ids unique |
| Accounts.ByUsernameAfterAppend | backend/authentication/views.py:229 | a user appended under a new username is found at the end |
| Accounts.ByEmailAppend | backend/authentication/views.py:229 | after an append, an email no earlier user has is found at the end exactly when the new user has it, and otherwise not at all |
| Accounts.Remove | backend/authentication/views.py:256-285 | an unknown email is a 404 and an admin or staff account is a 400; otherwise exactly that user is deleted, with their profile and tokens, before the mail is sent |
| Accounts.RemoveSparesAdmins | backend/authentication/views.py:262-265 | removal never deletes a superuser or staff account, adds no user and deletes at most one |
| Accounts.RequestReset | backend/authentication/views.py:127-170 | a missing email is a 400 and an unknown one a 404; otherwise a token for that user, lapsing one hour later, is stored, and it is kept even when the mail fails |
| Accounts.ConfirmReset | backend/authentication/views.py:176-207 | an unknown or lapsed token is a 400 and a token whose user is gone a 404, changing nothing; otherwise the user's password changes; a success removes exactly that token and requires the mail to go out, while a mail failure is a 500 that keeps every token |
| Accounts.ResetRetryAfterMailFailure | backend/authentication/views.py:186-202 | after a failed mail the token is still there, so a second confirmation within its hour succeeds and only then removes it |
| Accounts.UserWithId | backend/authentication/views.py:184 | the position of the user with that id, and none exactly when no user has it |
| Accounts.TokenSingleUse | backend/authentication/views.py:200-202 | a reset token works once within its hour; the same token is then refused |
| Accounts.TokenLapses | backend/authentication/models.py:20-26 | a token never resets a password from the end of its hour on |

## Left out

- JSX rendering, CSS classes and modal layout are left out. Only the state each handler computes is modelled, so a dialog with `show` false rendering nothing has no counterpart.
- Network and storage are left out: axios calls, `localStorage` and the token-refresh interceptor. A server reply is a parameter (an HTTP status, or the record it returns).
- The two PATCH requests of a brick-to-brick swap (`WallContainer.js:42-54`) are not modelled. They are independent and have no rollback, and the model assumes nothing about their atomicity.
- Media libraries and the file system are left out: ffmpeg, moviepy, PIL, thumbnails, `shutil`/`os` deletion, temporary-file moves and zip streaming. Frame counts, sizes and the library's success or error are inputs. A temporary-file move that fails is not modelled.
- Floating point is left out. Durations are whole milliseconds and the server's frame rate is in tenths, rounded to one decimal. The browser's rounded frame rate, crop zoom, image-to-video padding and upload progress and ETA figures are not modelled. The ETA record is kept only as a map entry that removal deletes.
- The GIF byte scanner `getGIFDuration` (`VideoUploadModal.js:255-269`) is left out. It cannot be reached, because an `image/gif` type is caught by the image branch first.
- Randomness is left out. The allocation shuffles are arbitrary permutations passed in. Random codes, passwords and token texts are parameters. `HomePage.js`'s random background is not modelled.
- Allocation.Allocate: the shuffle parameters range over every permutation. JavaScript's `sort` places `undefined` items last whatever the random comparator answers, so when a selected id names no listed video the page reaches fewer orders. Every property stated for all permutations holds for those orders too.
- Email sending, password hashing and JWT issuance are left out. A mail is a success flag, a password is compared as plain text, and sign-in yields the user id and role instead of tokens. Mail wording and `ChangePasswordView` are not modelled.
- Time zones are left out. Times are whole seconds, and dates are the `YYYY-MM-DD` strings the date inputs report.
- History entries stored at the same instant are kept in log order. The order the database gives to equal timestamps is not modelled.
- Shows.CompleteDesign, Shows.ApproveShow and Shows.DenyShow: the error text each handler shows after a reply other than 200 or a failed request is not modelled, since it changes no state. The identical update of the filtered list is not modelled separately; the search re-runs on the new list (`Shows.SubmittedLeavesDesignView`).
- `Shows.Lower` folds ASCII letters only. JavaScript's `toLowerCase` also folds other scripts.
- `DecimalText.ParseInt` reads an optional sign and ASCII digits only. Python's `int` also accepts surrounding blanks, `_` separators and non-ASCII digits.
- The upload-completion polling interval (`VideoUploadModal.js:440-445`) and races between requests in flight are left out. The queue is stepped explicitly.
- The read-only endpoints are left out because they only list stored rows: `artist_list`, `retrieve`, `videos`, `artist`, `locations`, `upload_constraints` and the video `frame` thumbnail. The manifest of `download_all_videos` and `retrieve_show_statuses` are modelled.
- ShowStore.PartialUpdate: follows a JSON body. A form-encoded `frame_count` of `"0"` is truthy text and would delete the videos; title, dates, artist, cover image and nested locations are stored by the serializer and not modelled.
- The generic PUT and PATCH of a brick (`BrickSerializer.update`, backend/bricks/api/serializers.py:26-35) and the generic status endpoints are not modelled. The brick update clears and replaces a brick's statuses without a history row, so it does not keep the replay invariant the modelled handlers keep.
- BrickStatus.CreateBrick: a status name is checked for length only; the serializer's trimming of surrounding blanks is not modelled.
- StatusCache.AddKeepsNamesDistinct: assumes the server echoes the submitted name. The name field trims surrounding blanks, so a padded name such as " a " comes back as "a" and can duplicate an existing status, which the lemma does not cover.
- `ShowViewSet.create` with locations in the request and `perform_destroy`'s file deletion are not modelled. The database cascade of a show deletion is modelled.
- `perform_create`'s message assembly is not modelled. Neither are `convert_video_from_image` and `crop_image_resolution`, which are image conversion work with no decision logic.
- The wording of Python's unbound-variable error changes between Python versions. The model keeps only the variable's name.
- `ErrorText.Clean` is not stated to be idempotent. A second pass can remove a wrapper that the first pass's deletions created.
- Accounts.NormalizeEmail: the surrounding blanks `normalize_email` strips are kept, and only ASCII letters are lower-cased.
- The preview frame slider (`PreviewWall.js:139-148`, `PreviewModal.js:13-42`) is not modelled. It only shifts the zero-based frame number by one for display, and the thumbnail endpoint it drives is left out with the other read-only endpoints.
- Accounts.Invite: `create_user` passes the username through Unicode NFKC normalization, and the model stores the address unchanged. The two agree on every ASCII address. For other addresses the stored username can differ from the text the 409 check compared.
- UploadQueue.Settle: the outcome of the request is a parameter. The progress and time-left records that upload events update are not modelled, because they are timing and floating-point arithmetic.
- UploadQueue.FailureText: the field error and the reply body are taken as texts. The source records whatever value the server sent, such as the list of messages for the `file` field.
- Accounts.Login: a profile with no lapse time makes the comparison raise. The model calls this a server error without the exception text.
- The frame-count check of the create form takes the input's numeric value as a real. `Number`'s parsing of the text is not modelled.
- `App.js`'s `handleNavigation`, the unused `SetStatusModal.js`, and the login, invite, artist-management, reset-confirm, control-panel and home screens are left out. Each is a form that posts to an endpoint modelled here, or holds state nothing reads.

## Findings

| source | as written | input that shows it | evidently intended | confidence | as-written member | corrected member |
|---|---|---|---|---|---|---|
| backend/videos/api/cropfile.py:97-127 | when `validate_length` raises before `tmp_path` is assigned, the `except` clause reads `tmp_path`, and the unbound-variable error replaces the frame-count message | a clip of 100 frames for a show of 10 frames; validation refuses such a video or GIF first, but an `.mp4` sent as `image/png` passes the image branch, which counts no frames, and is then trimmed (backend/videos/api/views.py:350-353) | the frame-count error reaches the caller | high, not executed | MediaRules.CropFileDurationAsWritten, MediaRules.CropFileDurationLosesMessage, MediaRules.ImageTypedMp4ReachesTrimBug | MediaRules.CropFileDuration, MediaRules.CropFileDurationAgrees, MediaRules.AcceptedUploadCropsCleanly |
| backend/videos/api/views.py:220-247 | `update_or_create` runs no validators, so any number in a `brickDistribution[N]` key creates location N | key `brickDistribution[300]` on a show with no locations | only locations 1..226 of the show are written | high, not executed | ShowStore.SaveWallDistribution, ShowStore.DistributionOutsideWall | ShowStore.SaveWallDistributionChecked, ShowStore.DistributionCheckedKeepsConsistent |
| backend/videos/api/views.py:181-204 | the location PATCH saves through the serializer without `Location.clean`, so a location can take a video of another show | PATCH video 7 (of show 2) into location 1 of show 1 | the same-show rule of `Location.clean` holds | high, not executed | ShowStore.PatchLocation, ShowStore.PatchCrossShow | ShowStore.PatchLocationChecked, ShowStore.PatchCheckedKeepsConsistent |
| backend/videos/api/serializers.py:94-119 | when the video cannot be opened, `video_clip` is never assigned, and `finally: video_clip.close()` raises an unbound-variable error that replaces the decoder's message | an MP4 upload the library cannot decode | the decoder's error reaches the client | high, not executed | MediaRules.ValidateUploadAsWritten, MediaRules.UnreadableVideoLosesMessage | MediaRules.ValidateUpload, MediaRules.ValidateUploadAgrees |
| backend/videos/api/serializers.py:64-73 | an empty or missing `show` field falls through to `self.validated_data`, which raises while validation runs, and a non-numeric id makes `Show.objects.filter` raise; neither is caught, so the upload is a server error | an upload with no `show` field, or with `show` = `abc` | the upload is refused as "Associated show not found." | medium, not executed | MediaRules.UploadAnswerAsWritten, MediaRules.ShowFieldFailures | MediaRules.UploadAnswer, MediaRules.UploadAnswerAgrees |
