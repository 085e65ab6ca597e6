# Blink driver, maze game and kernel, modelled and proved

The repository holds three programs: a driver that blinks characters, a VGA maze game with a driver
for its serial controller, and a small operating system kernel. This project models the parts of them
with the most state and proves what they are built to guarantee.

* **Maze generation** (`Lattice`, `Reach`, `Search`, `Repair`, `Worms`, `Rules`, `Mazes`). Weighted
  random worms dig a lattice; a repair loop then connects whatever they left apart. The loop ends for
  every maze and every choice of random picks, and at its exit every (odd, odd) point has an open path
  from (1,1). Fruits are conserved from generation on.
* **The build buffer** (`Pictures`, `Frames`, `Screens`, `Views`). A planar byte array that slides under
  the view caches the visible picture. Lines, blocks and the player's mask are drawn into it
  incrementally; it always equals the maze drawn from scratch.
* **The game** (`Players`, `Motions`, `Games`, `Levels`). One-pixel ticks with directions written by other
  threads between them. The player never touches a wall, goes where it is told, the view follows, and the
  display shows the current state after every frame of every run. Every level that can be made can be won.
* **The serial line** (`Packets`, `TuxLine`). Two ring buffers and a packet framer that works in pieces
  of twelve bytes; it delivers exactly the packets of the byte stream however the bytes arrive.
* **The file system** (`Files`, `Descriptors`). Name look-up, the block walk, reading through a
  descriptor, and listing the directory.
* **Terminals** (`TextScreens`, `Consoles`). Three screens behind one page-table entry behave as three
  independent screens.
* **Processes** (`ProcessChains`, `Kernels`). Execute, halt and the round-robin scheduler keep one parent
  chain per terminal.
* **The blink list** (`Blinks`, `BlinkLists`, `BlinkDrivers`). A linked list in a pool of slots and its
  timer handler, whose behaviour has a closed form.

Code that changes state in place is modelled by classes with methods; each method is tied to a pure
function or predicate about which the properties are proved. `random()` is a finite sequence of
arbitrary draws: a method that needs draws returns `done = false` (or `ready = false`) only when fewer
than two are left, and everything it promises otherwise holds for every sequence.

Where the code falls short of what its comments say, the model follows the code and the exact condition
is proved: `Frames.ColumnContainedIff` (the range check of `draw_vert_line` accepts column 320),
`Frames.MaskUndoneIff` (the saved block of a clipped mask is shifted), `TuxLine.TransmitLossIff`
(`write_wakeup` takes one byte too many), `Files.ReadsFileIff` (reads that start beyond the first
block, and the give-up limit), `Descriptors.ListingCompleteIff` (an empty name ends a listing),
`TextScreens.BeforeTheCursorIff` (filling a row moves the cursor down at once),
`Motions.ClosedGoesOnOrStops` (asking for the way back stops the player when that way is closed),
`ProcessChains.ExecuteKeepsChainsIff` (a program started in the background),
`BlinkLists.AddKeepsListIff` (location 0 marks free slots) and `Blinks.SyncKeepsShownIff` (sync always
writes the off character).

## Model

| member | source | states |
|---|---|---|
| `Lattice.EncodeTests` | empee2/maze.h:55-67 | Each bit test on a maze byte (wall, fruit number, exit, reached, plain wall) reads exactly the corresponding field of the modelled cell. |
| `Lattice.EncodeUpdates` | empee2/maze.h:55-67 | Each bit update used on a maze byte (set or clear reached, set exit, set or clear fruit) writes exactly that field and no other. |
| `Lattice.IdxInjective` | empee2/maze.c:101 | The flat index of an inside point differs from that of every other lattice point, so in-place writes there touch one point. |
| `Lattice.IdxAlias` | empee2/maze.c:64-84 | Two lattice points share a byte if and only if they are equal or are (0, y) and (2*dim, y-1): the unified side boundary. |
| `Lattice.OffsetIsStep` | empee2/maze.c:114-181 | Pointer offsets +-1, +-2, +-2*dim, +-4*dim in the flat array are one and two steps on the lattice. |
| `Lattice.NodesSize` | empee2/maze.c:256-258 | There are exactly x_dim * y_dim (odd, odd) points, the number the generator counts down from. |
| `Reach.PutChangesOnePoint` | empee2/maze.c:64-84 | Writing an inside cell changes that point and no other point of the map, including the shared boundary columns. |
| `Reach.PathStaysIn` | empee2/maze.c:114-181 | A set that holds the start and is closed under open, unmarked adjacency contains everything reachable. |
| `Search.QueueFits` | empee2/maze.c:114-181 | The points found by a search are distinct (odd, odd) points, so the queue of 1500 slots never overflows. |
| `Search.SearchGrows` | empee2/maze.c:114-181 | Entering a new point through an open cell keeps the search invariant, and raw offsets never lead across the boundary. |
| `Search.SearchDone` | empee2/maze.c:114-181 | When nothing is left to explore, the marked points are exactly those reachable through previously unmarked points, and their number is the queue length. |
| `Mazes.Maze.MarkMazeArea` | empee2/maze.c:114-181 | Marks exactly the (odd, odd) points reachable from the start through unmarked points, changes nothing else, and returns their number. |
| `Worms.AllowedStaysOnNodes` | empee2/maze.c:288-302 | The four boundary tests allow a direction exactly when the next (odd, odd) point in that direction exists; the cell between may be dug. |
| `Worms.TotalPositive` | empee2/maze.c:284-302 | At every point some direction has positive weight, so the modulus of the random pick is never 0. |
| `Worms.ChosenIsAllowed` | empee2/maze.c:299-303 | The direction whose share of the cumulative weights holds the pick is never one that leads off the lattice. |
| `Worms.WeightMeaning` | empee2/maze.c:233 | Straight on into solid rock weighs 84, turning into it 9, going back 3, other open ground 1, leaving the lattice 0. |
| `Worms.Turned` | empee2/maze.c:303-332 | What the next choice makes of a worm: the end exactly when it is straight back, otherwise one more move of its trail. |
| `Worms.Dig` | empee2/maze.c:309-332 | Digging a cell keeps the fixed walls standing and removes exactly that point from the solid (odd, odd) points. |
| `Mazes.Maze.PickPoint` | empee2/maze.c:263-266 | The first pair of random numbers whose (odd, odd) point passes the test is returned, and only the pairs up to it are used up. |
| `Mazes.Maze.ChooseTurn` | empee2/maze.c:284-303 | The cumulative-weight search stops at the direction whose share of the total contains random() mod total. |
| `Mazes.Maze.MoveWorm` | empee2/maze.c:309-332 | A worm's move digs the wall passed and the next point, and lowers the count exactly when that point was solid. |
| `Mazes.Maze.DigWorm` | empee2/maze.c:259-338 | The maze is dug along a trail whose every move is the turn its draw chooses by the weights, none going straight back, and it ends exactly at the first choice that does; the solid set shrinks and the count is right. |
| `Mazes.Maze.WormPhase` | empee2/maze.c:256-339 | At exit every (odd, odd) point is open, and boundary and (even, even) points are walls. |
| `Repair.RegionJoined` | empee2/maze.c:376-385 | Knocking down the wall to a marked neighbour and marking what becomes reachable keeps the marked set closed and connected to (1,1), and grows it by exactly the number marked. |
| `Repair.AllMarkedConnects` | empee2/maze.c:346-391 | When the count of marked points reaches x_dim * y_dim, every (odd, odd) point is marked and has an open path from (1,1). |
| `Repair.FrontierExists` | empee2/maze.c:376-385 | From every unmarked point, walking towards (1,1) meets an unmarked point that has a marked neighbour. |
| `Repair.FrontierWhileIncomplete` | empee2/maze.c:346-391 | While points remain unmarked there is one next to a marked point, so the repair loop can always make progress. |
| `Repair.ScanIsCyclic` | empee2/maze.c:355-364 | The scan step visits the (odd, odd) points cyclically in row order. |
| `Repair.ScanApproaches` | empee2/maze.c:355-364 | A scan step that does not land on the target comes strictly closer to it: the last component of the termination measure. |
| `Mazes.Maze.TryConnect` | empee2/maze.c:376-390 | The first marked neighbour in the order up, left, right, down is joined, the cells it makes reachable are marked and their number returned; without one nothing changes. |
| `Mazes.Maze.RepairRound` | empee2/maze.c:348-391 | Each round keeps the invariant and decreases (unmarked points, random trials left, scan distance) lexicographically. |
| `Mazes.Maze.RepairPhase` | empee2/maze.c:346-391 | For every maze and every sequence of picks the loop ends with every (odd, odd) point marked and connected to (1,1). |
| `Mazes.Maze.DigConnectedMaze` | empee2/maze.c:247-391 | Both phases together: every (odd, odd) point is open and has an open path from (1,1). |
| `Rules.UnmarkedMaze` | empee2/maze.c:397-399 | Clearing the marks keeps the maze connected and leaves only plain walls and empty cells. |
| `Rules.EmptiedMaze` | empee2/maze.c:411-417 | Opening every inside cell keeps the maze connected, without fruits, marks or exits. |
| `Mazes.Maze.ClearMarks` | empee2/maze.c:397-399 | Exactly the marks of the (odd, odd) points are removed. |
| `Mazes.Maze.RemoveWalls` | empee2/maze.c:411-417 | Exactly the inside cells become empty. |
| `Rules.AddFruit` | empee2/maze.c:688-709 | Placing a fruit on an open point without one keeps n_fruits equal to the number of fruit cells. |
| `Rules.EatFruit` | empee2/maze.c:629-657 | Removing a fruit keeps n_fruits equal to the number of fruit cells, and n_fruits was positive. |
| `Mazes.Maze.PlaceFruit` | empee2/maze.c:688-702 | The fruit goes to an (odd, odd) point that had none, its number is a draw mod 7 plus 1, and only that cell and the count change. |
| `Mazes.Maze.StockMaze` | empee2/maze.c:419-431 | After generation the fruit count equals the number of fruit cells, there is exactly one exit, and the maze is connected. |
| `Mazes.Maze.MakeMaze` | empee2/maze.c:227-434 | -1 exactly for dimensions out of range; otherwise a connected maze that satisfies the rules of play, with the requested fruits and no square seen. |
| `Pictures.StencilInArray` | empee2/maze.c:455-490 | The neighbours inspected for any drawn location lie inside the array, also on the boundary. |
| `Pictures.BlockDepicts` | empee2/maze.c:455-490 | 34 exactly for the exit with no fruit cell left; otherwise 33 or 17 exactly when unseen with or without fruit, 25 + number exactly for a seen fruit, 16 exactly for seen open ground, and for a seen wall the four binary digits say exactly which of the cells above, right, below and left are walls. |
| `Pictures.DepictedOnce` | empee2/maze.c:455-490 | That determines the image number. |
| `Mazes.Maze.FindBlock` | empee2/maze.c:455-490 | The number returned depicts the location in the sense of Pictures.BlockDepicts. |
| `Mazes.Maze.FillHorizBuffer` | empee2/maze.c:503-531 | Pixel i of the line equals pixel (x+i, y) of the maze drawn from scratch, for every starting sub-pixel. |
| `Mazes.Maze.FillVertBuffer` | empee2/maze.c:544-575 | Pixel i of the line equals pixel (x, y+i) of the maze drawn from scratch, for every starting sub-pixel. |
| `Mazes.Maze.FindOpenDirections` | empee2/maze.c:795-800 | op[d] is set exactly when the neighbour in direction d is not a wall. |
| `Frames.AddrInBuffer` | empee2/modex.c:69-72 | Every pixel of a window that fits has its byte inside the 78241-byte buffer. |
| `Frames.AddrInjective` | empee2/modex.c:392-488 | No two pixels of a 320x182 window share a byte. |
| `Frames.WindowSpan` | empee2/modex.c:50-72 | A window spans exactly 4*14560 bytes, or one more when it is not aligned to four pixels, and the test of set_view_window is exactly containment of that span. |
| `Frames.PlotOnePixel` | empee2/modex.c:595-646 | Writing a visible pixel's byte changes that pixel and no other visible pixel. |
| `Frames.CopyInBuffer` | empee2/modex.c:428-488 | Source and destination of the overlapping copy lie inside the buffer. |
| `Frames.CopyKeepsCommon` | empee2/modex.c:428-488 | The copied range moves every pixel seen through both windows to its new address. |
| `Frames.PlaneShowsPixels` | empee2/modex.c:500-532 | Byte 80*sy + c of video plane i is pixel (show_x + 4c + i, show_y + sy), for every view position. |
| `Screens.Screen.CopyBytes` | empee2/modex.c:455-488 | The copy loop moves a range of bytes correctly whichever way source and destination overlap, and changes nothing else. |
| `Screens.Screen.SetViewWindow` | empee2/modex.c:392-488 | In all three cases the new window lies inside the buffer, every pixel visible before and after keeps its value, and the guard bytes are untouched. |
| `Screens.Screen.DrawFullBlock` | empee2/modex.c:595-646 | Exactly the visible pixels of the block change, to the block's image, for every clip position. |
| `Screens.Screen.Mask` | empee2/modex.c:662-706 | Exactly the visible pixels chosen by the mask change, and what was under the clipped block is saved. |
| `Screens.Screen.DrawHorizLine` | empee2/modex.c:770-806 | -1 exactly when y is out of range; otherwise exactly the pixels of that row change, to the maze's picture. |
| `Screens.Screen.DrawVertLine` | empee2/modex.c:733-754 | -1 exactly when x is not in 0..320; for a column of the view exactly its pixels change, to the maze's picture. |
| `Frames.ColumnContainedIff` | empee2/modex.c:733-754 | Of the columns the range check accepts, writing one leaves all other visible pixels alone if and only if it is not column 320. |
| `Frames.MaskUndoneIff` | empee2/modex.c:595-706 | For a visible block, mask followed by draw_full_block of the saved block restores every picture if and only if the upper left corner is not clipped. |
| `Screens.Screen.ShowScreen` | empee2/modex.c:500-532 | The page that was not on display gets every plane of the view and is displayed; the rest of video memory is untouched. |
| `Views.RevealBlock` | empee2/maze.c:587-616 | Unveiling a point changes no image other than its own and that of its twin across the unified boundary. |
| `Views.UnveilStale` | empee2/maze.c:587-616 | If the twin is out of view, unveiling a point makes only that point's image out of date. |
| `Views.FruitStale` | empee2/maze.c:629-709 | Eating or adding a fruit makes out of date only that point's image, and the exit's when the count becomes or leaves 0. |
| `Views.Refreshed` | empee2/maze.c:605-616 | Redrawing a point brings its image up to date and leaves the rest up to date. |
| `Views.UnveilSpace` | empee2/maze.c:587-616 | Off the map nothing happens; otherwise exactly that location is marked seen and the buffer again equals a full redraw. |
| `Views.CheckForFruit` | empee2/maze.c:629-657 | Returns the fruit number at the point, removes it, keeps the fruit count right, and the buffer, exit included, equals a full redraw. |
| `Views.CheckForWin` | empee2/maze.c:669-676 | True exactly when no cell holds a fruit and the point is the exit. |
| `Views.AddAFruit` | empee2/maze.c:688-733 | Adds one fruit to a point without one, returns the new count, keeps the count right, and the buffer equals a full redraw. |
| `Views.RevealNearAt` | empee2/mazegame.c:274-293 | Unveiling around the player marks exactly the thirteen locations of the pattern that are on the map, and keeps the rules of play. |
| `Views.DiamondMarked` | empee2/mazegame.c:274-293 | Exactly the drawn locations at most two steps from the player, and their twins across the unified boundary, become seen; nothing else of any cell changes. |
| `Views.UnveilAround` | empee2/mazegame.c:274-293 | The nine and four calls unveil that pattern and keep the buffer equal to a full redraw. |
| `Views.PannedRow` | empee2/mazegame.c:171-235 | After the view moves by one row, drawing the new row alone makes the whole view equal to a full redraw. |
| `Views.PannedColumn` | empee2/mazegame.c:195-259 | After the view moves by one column, drawing the new column alone makes the whole view equal to a full redraw. |
| `Views.UnmaskedAgrees` | empee2/mazegame.c:635-641 | Undoing the mask leaves every visible pixel as before and equal to a full redraw. |
| `Views.PlayerPictures` | empee2/maze.c:763-783 | Each direction has its own picture and mask. |
| `Views.ShowFrame` | empee2/mazegame.c:635-641 | The displayed page shows the view of the maze with the player over it, and the build buffer's picture is unchanged afterwards. |
| `Views.DrawView` | empee2/mazegame.c:155-160 | Drawing all 182 rows makes the buffer equal to the maze drawn from scratch. |
| `Players.TickKeepsTrack` | empee2/mazegame.c:563-629 | Whatever direction was written and whatever lies past the open array, after a tick the player stands on an open square or is 12 - move_cnt pixels along a segment between two open squares; stopped implies move_cnt 0. |
| `Players.SteerKeepsTrack` | empee2/mazegame.c:563-575 | Turning back between two squares leaves the player on the same segment, seen from its other end. |
| `Players.JunkIrrelevant` | empee2/mazegame.c:590-593 | The value read past the end of the open array with DIR_STOP never influences the tick. |
| `Players.NeverInAWall` | empee2/mazegame.c:478-632 | In every run from the start, for every interleaving of key presses, each pixel of the player's block lies on an open square. |
| `Players.PanKeepsMargins` | empee2/mazegame.c:171-259 | Each move keeps the view within SHOW_MIN of the maze's edges and 60 pixels around the player unless the view is at its limit. |
| `Players.PlayerInView` | empee2/mazegame.c:171-259 | Within the margins the player's block is wholly in view. |
| `Players.FarSideHidden` | empee2/mazegame.c:274-293 | When the player is close enough to one side to unveil its boundary column, the other boundary column, the same cells, is out of view. |
| `Players.WallsDecideTick` | empee2/mazegame.c:576-629 | The player's motion depends on the walls only, not on fruits or what has been seen. |
| `Motions.TurnsWhenOpen` | empee2/mazegame.c:586-632 | On a square with the wanted direction open, after the tick the player has moved one pixel that way, faces that way, and has 11 moves left. |
| `Motions.ClosedGoesOnOrStops` | empee2/mazegame.c:563-632 | With the wanted direction closed it goes on in its old direction exactly when that is open and not the opposite of the wanted one; otherwise it stops where it is. |
| `Motions.ClosedIsNotBehind` | empee2/mazegame.c:563-632 | When the square behind is open the exception cannot occur: the player goes on if it can and stops otherwise. |
| `Motions.BehindIsOpen` | empee2/mazegame.c:563-632 | After every tick, the square behind a player that has just arrived is open. |
| `Motions.NothingWanted` | empee2/mazegame.c:586-611 | A player for whom nothing is asked stays as it is. |
| `Motions.BetweenSquares` | empee2/mazegame.c:563-632 | Between squares it moves one pixel on, or back with the count mirrored exactly when the opposite is asked for. |
| `Motions.TwelveTicks` | empee2/mazegame.c:563-632 | From a square whose neighbour in the wanted direction is open, twelve ticks without another press end on that neighbour with move_cnt 0. |
| `Motions.PathWalked` | empee2/mazegame.c:563-632 | The player can walk along every path of the maze. |
| `Motions.EveryNodeReached` | empee2/mazegame.c:478-632 | In a connected maze some key presses bring the player from the start to any (odd, odd) point. |
| `Motions.PansOnlyIfNeeded` | empee2/mazegame.c:171-259 | The view moves exactly when staying would lose the margins, and by one pixel. |
| `Games.Game.MoveUp` | empee2/mazegame.c:171-185 | Moves one pixel, pans exactly when the margin is short and the limit not reached, and the buffer equals a full redraw of the new view. |
| `Games.Game.MoveRight` | empee2/mazegame.c:195-210 | As MoveUp, to the right. |
| `Games.Game.MoveDown` | empee2/mazegame.c:220-235 | As MoveUp, downwards. |
| `Games.Game.MoveLeft` | empee2/mazegame.c:245-259 | As MoveUp, to the left. |
| `Games.Game.UnveilAroundPlayer` | empee2/mazegame.c:274-293 | Eats the fruit, unveils the pattern, keeps the buffer equal to a full redraw; true exactly when no fruit cell remains and the player is on the exit. |
| `Games.Game.Steer` | empee2/mazegame.c:563-575 | The direction fields become those of the pure steering step. |
| `Games.Game.Tick` | empee2/mazegame.c:544-633 | One tick refines the pure transition of player, view and maze, keeps the buffer equal to a full redraw, and ends the level exactly on arrival at the exit with no fruit cell left. |
| `Games.Game.PrepareMazeLevel` | empee2/mazegame.c:125-161 | Dimensions and fruits follow the level; the maze is connected and the buffer equals a full redraw of the first view. |
| `Games.Game.StartLevel` | empee2/mazegame.c:478-503 | The maze made for exactly this level, with its dimensions, fruits and connectivity, is the one displayed; the player stands on (1,1) and has arrived there. |
| `Games.LevelsGrow` | empee2/mazegame.c:135-138 | Level 1 has the least dimensions; every further level adds two until the greatest. |
| `Games.FruitsGrow` | empee2/mazegame.c:139-140 | Levels 1 and 2 begin with one fruit, every two levels add one, up to six. |
| `Games.ArrivalAt` | empee2/mazegame.c:274-293 | Arriving on a square removes its fruit, marks what can be seen from it, and changes no wall, exit or other fruit. |
| `Games.ArrivalCounts` | empee2/mazegame.c:274-293 | The fruit cells lose exactly that square, and n_fruits goes down by one exactly when there was a fruit. |
| `Games.ArrivalAgain` | empee2/mazegame.c:577-584 | Arriving on a square a second time changes nothing, so a resting player needs no new picture. |
| `Games.RestingTick` | empee2/mazegame.c:563-632 | A tick that does not set a resting player in motion changes neither maze, view nor the player's position and picture. |
| `Games.Game.PlayFrame` | empee2/mazegame.c:544-641 | After each frame the display shows the current maze, view and player, although it is redrawn only once the player has moved. |
| `Games.Game.PlayLevel` | empee2/mazegame.c:505-642 | For every sequence of frames and inputs: the display and the buffer stay right, no wall moves, the player never touches a wall, its state is that of the pure run, and a win means no fruit cell is left and the player is on the exit. |
| `Levels.SessionRuns` | empee2/mazegame.c:544-633 | Through every sequence of ticks walls and exit stay, the player moves as in a fixed maze, and what is eaten stays eaten. |
| `Levels.CanBeWon` | empee2/mazegame.c:544-633 | From any (odd, odd) point of a maze in play some key presses eat every fruit, reach the exit and win. |
| `Levels.EveryLevelCanBeWon` | empee2/mazegame.c:478-633 | Every level, as it is made, can be won from its start. |
| `Packets.FramerDeliversAll` | empee2/module/tuxctl-ld.c:255-287 | In every state of the framer the delivered packets are exactly the triples with high bits 0, 1, 1 in the consumed bytes, in order: chunking does not matter. |
| `Packets.PacketsAreTheFramed` | empee2/module/tuxctl-ld.c:262-283 | These packets are, in increasing order of position, the byte triples at exactly the framed positions. |
| `Packets.FramedByValue` | empee2/module/tuxctl-ld.c:262-283 | A packet starts exactly where a byte below 128 is followed by two of at least 128. |
| `Packets.SkipPacket` | empee2/module/tuxctl-ld.c:262-275 | After a packet the scan may skip its three bytes. |
| `Packets.Resynchronises` | empee2/module/tuxctl-ld.c:255-287 | Whatever bytes came before, all packets of a following stretch are found. |
| `Packets.PacketsDisjoint` | empee2/module/tuxctl-ld.c:255-287 | Two packets never overlap. |
| `TuxLine.EmptyFullByCount` | empee2/module/tuxctl-ld.c:96-100 | The empty and full tests agree with the byte counts, and at most 63 bytes are held. |
| `TuxLine.BytesPushed` | empee2/module/tuxctl-ld.c:96-100 | Storing at the end index appends a byte to the ring's contents, also when it wraps. |
| `TuxLine.BytesPopped` | empee2/module/tuxctl-ld.c:96-100 | Taking at the start index removes the first byte of the contents, also when it wraps. |
| `TuxLine.LineDiscipline.ReceiveBuf` | empee2/module/tuxctl-ld.c:141-162 | The ring accepts the longest prefix there is room for, and then the callback runs; accepted = consumed + ring contents throughout. |
| `TuxLine.LineDiscipline.Get` | empee2/module/tuxctl-ld.c:200-215 | Moves min(n, available) bytes, in order, to the caller's buffer. |
| `TuxLine.LineDiscipline.Put` | empee2/module/tuxctl-ld.c:223-240 | Queues the longest prefix there is room for, returns how many bytes found none, and then writes. |
| `TuxLine.LineDiscipline.WriteWakeup` | empee2/module/tuxctl-ld.c:168-190 | Takes up to room + 1 bytes from the queue, of which the driver accepts room. |
| `TuxLine.TransmitLossIff` | empee2/module/tuxctl-ld.c:168-190 | No byte is lost by a wake-up if and only if the queue is not longer than the room; otherwise exactly one is. |
| `TuxLine.LineDiscipline.DataCallback` | empee2/module/tuxctl-ld.c:255-287 | Consumes up to 12 - n_saved bytes, delivers exactly the packets of the consumed stream, and keeps at most two saved bytes that are its end. |
| `TuxLine.LineDiscipline.DeliveredIsAll` | empee2/module/tuxctl-ld.c:255-287 | In every valid state the packets delivered so far are all the packets of all bytes consumed so far. |
| `Files.ReadData` | empee3/student-distrib/filesys.c:96-153 | -1 exactly for a bad inode, offset or block number; otherwise the clamped length, with the bytes copied from the addresses the block walk visits. |
| `Files.CopyBlocks` | empee3/student-distrib/filesys.c:116-152 | The copy loop fails exactly when a block number it checks is out of range and copies up to its give-up limit. |
| `Files.ReadsFileIff` | empee3/student-distrib/filesys.c:96-153 | read_data returns the file's bytes for every image content if and only if the read starts in the first block and does not pass the give-up limit, or starts later and crosses only into physically adjacent blocks. |
| `Files.OneBlockGuarded` | empee3/student-distrib/filesys.c:96-153 | A read within one block always satisfies that condition. |
| `Descriptors.ReadDentryByName` | empee3/student-distrib/filesys.c:41-64 | The index of the first entry with exactly that name, or -1 if there is none. |
| `Descriptors.NameMatches` | empee3/student-distrib/filesys.c:48-57 | The length computation and comparison agree exactly when the entry's name equals the given one, also for names of 32 characters. |
| `Descriptors.Process.Open` | empee3/student-distrib/syscalls.c:309-363 | Fails exactly when the name is unknown or all slots are taken; otherwise the lowest free slot is open at position 0 on what the first entry with that name is, whatever its kind, and no other slot changes. |
| `Descriptors.Process.Close` | empee3/student-distrib/syscalls.c:374-394 | Succeeds exactly for an open descriptor from 2 on, which becomes free with position 0. |
| `Descriptors.Process.Read` | empee3/student-distrib/filesys.c:199-218 | Refuses a free descriptor and size 0; returns 0 at the end of the file; otherwise the clamped number of bytes, and advances the position by it. |
| `Descriptors.ChunkInBlock` | empee3/student-distrib/filesys.c:199-218 | A chunk whose size divides 4096, at a multiple of its size, never straddles two blocks. |
| `Descriptors.ChunkRead` | empee3/student-distrib/filesys.c:96-218 | An aligned chunk read returns exactly the next bytes of the file. |
| `Descriptors.ReadToEnd` | empee3/student-distrib/filesys.c:199-218 | Reading until 0 in chunks that divide 4096 concatenates to exactly the file. |
| `Descriptors.ReadFileByName` | empee3/student-distrib/filesys.c:41-218 | Opening by name and reading to the end yields exactly the file of the first entry with that name. |
| `Descriptors.Process.ReadDir` | empee3/student-distrib/filesys.c:269-294 | Copies the next name, cut at n and padded with zeros, returns its length and advances; 0 past the last entry, -1 for a bad or closed descriptor. |
| `Descriptors.ListDirectory` | empee3/student-distrib/filesys.c:269-294 | Reading until 0 lists the names in order from the current position up to the first empty one. |
| `Descriptors.OpensAtStart` | empee3/student-distrib/syscalls.c:309-363 | A free slot has position 0, so an entry of every kind is opened at its start. |
| `Descriptors.ListDirectoryByName` | empee3/student-distrib/filesys.c:233-294 | Opening a directory by name and reading until 0 lists all names from the first entry on. |
| `Descriptors.ListingCompleteIff` | empee3/student-distrib/filesys.c:269-294 | The listing holds every entry if and only if no entry has an empty name. |
| `TextScreens.EmitAppend` | empee3/student-distrib/terminal.c:83-143 | Writing a text in pieces is writing it at once. |
| `TextScreens.CharacterDrawn` | empee3/student-distrib/terminal.c:517-522 | A character appears in the cell at the cursor and nothing else changes; the cursor moves one column on, and from the last column also one row down. |
| `TextScreens.CharacterWraps` | empee3/student-distrib/terminal.c:498-508 | With the row full the character appears at the start of the next row, after scrolling when there is none. |
| `TextScreens.LineBroken` | empee3/student-distrib/terminal.c:488-516 | A line break draws nothing, goes to the start of the next row, and scrolls exactly on the last one. |
| `TextScreens.ZeroIgnored` | empee3/student-distrib/terminal.c:482-484 | A zero byte changes nothing. |
| `TextScreens.BeforeTheCursorIff` | empee3/student-distrib/terminal.c:517-522 | The cell before the new cursor holds the character if and only if the cursor did not skip a row, or that cell held it already. |
| `TextScreens.LineAppears` | empee3/student-distrib/terminal.c:476-530 | n characters that fit the row occupy the n columns from the cursor on, character by character, nothing else changes, and the cursor column is n further. |
| `TextScreens.EmitKeepsRowsAbove` | empee3/student-distrib/terminal.c:476-530 | A character disturbs no row above the cursor except by scrolling them up by one. |
| `Consoles.Console.ScrollUp` | empee3/student-distrib/terminal.c:351-382 | Every row of the mapped page moves up, the last is blank, the cursor goes to its start, and other pages are untouched. |
| `Consoles.Console.Puts` | empee3/student-distrib/terminal.c:476-530 | Each character is emitted on the mapped screen of the terminal, every cell write stays in its 25x80 page, and other pages and cursors are untouched. |
| `Consoles.Console.WriteText` | empee3/student-distrib/terminal.c:95-135 | Staging a text of any length in pieces of 128 characters equals emitting its characters one by one. |
| `Consoles.Console.Write` | empee3/student-distrib/terminal.c:83-143 | Writing n bytes to any terminal, displayed or not, emits exactly them there (n characters that fit the row appear in its next n cells), leaves the other screens alone, and restores the mapping. |
| `Consoles.Console.SwitchTerminal` | empee3/student-distrib/terminal.c:246-302 | The displayed terminal changes; every terminal's screen and cursor stay what they were. |
| `Consoles.Console.InitTerminals` | empee3/student-distrib/terminal.c:180-217 | The first terminal takes over the display, the others are blank. |
| `Consoles.NextEvent` | empee3/student-distrib/terminal.c:83-302 | One more event extends what a terminal shows exactly by what is written to that terminal. |
| `Consoles.Console.Run` | empee3/student-distrib/terminal.c:83-302 | After any run of writes and switches each terminal's screen is what emitting everything written to it, in order, gives, and the terminal last switched to is displayed. |
| `Consoles.LastSwitchDisplayed` | empee3/student-distrib/terminal.c:246-302 | The terminal on display is the one last switched to. |
| `ProcessChains.ExecuteExtends` | empee3/student-distrib/syscalls.c:104-187 | A program started on the displayed terminal lengthens that terminal's parent chain by the lowest free pid. |
| `ProcessChains.HaltShortens` | empee3/student-distrib/syscalls.c:49-90 | A halting program leaves its parent active and shortens its terminal's chain by itself. |
| `ProcessChains.ShellRestarts` | empee3/student-distrib/syscalls.c:49-90 | A halted shell restarts with its own pid: the table is unchanged. |
| `ProcessChains.StepKeepsChains` | empee3/student-distrib/syscalls.c:49-187 | Every execute from the displayed terminal, halt, switch and timer tick keeps the live pids partitioned into one parent chain per terminal. |
| `ProcessChains.RunKeepsChains` | empee3/student-distrib/syscalls.c:49-187 | In every state of every run the live pids form one chain per terminal, from its shell to its active pid. |
| `ProcessChains.ExecuteKeepsChainsIff` | empee3/student-distrib/syscalls.c:157-168 | From such a state, execute keeps the chains if and only if it comes from the displayed terminal or the table is full. |
| `ProcessChains.TickPicksLive` | empee3/student-distrib/schedule.c:13-20 | The scheduler selects the active, live process of the next terminal and launches nothing. |
| `ProcessChains.TickSchedulesLive` | empee3/student-distrib/schedule.c:13-20 | After every tick of every run a live process of the terminal whose turn it is has been selected. |
| `ProcessChains.TurnCountsTicks` | empee3/student-distrib/schedule.c:13-15 | The turn depends on the number of ticks alone, whatever happens between them. |
| `ProcessChains.EveryTerminalInThreeTicks` | empee3/student-distrib/schedule.c:13-15 | Of three ticks in a row each terminal gets exactly one. |
| `ProcessChains.BootReachesChains` | empee3/student-distrib/schedule.c:13-20 | Two ticks after the first shell, all three shells run, each alone on its own terminal. |
| `Kernels.Kernel.ClaimPid` | empee3/student-distrib/syscalls.c:116-124 | The slot search claims the lowest free pid, or reports that there is none. |
| `Kernels.Kernel.Execute` | empee3/student-distrib/syscalls.c:104-187 | The tables become those of the pure transition; nothing changes when the table is full. |
| `Kernels.Kernel.Halt` | empee3/student-distrib/syscalls.c:49-90 | The tables become those of the pure transition, including the restart of a shell. |
| `Kernels.Kernel.Schedule` | empee3/student-distrib/schedule.c:6-53 | Turn, selected pid and tables become those of the pure transition. |
| `Kernels.Kernel.Handle` | empee3/student-distrib/syscalls.c:49-187 | Every allowed event leads from chained processes to chained processes, as the pure step says. |
| `Blinks.BlinkClosedForm` | empee3/fish/blink.S:49-99 | An entry added k ticks ago is on if and only if k mod (on + off) < on; stated for every 16-bit length, with 0 and lengths over 32768 counting as one tick. |
| `Blinks.PhaseAfterTicks` | empee3/fish/blink.S:49-99 | The countdown, too, is what is left of the current part of the period. |
| `Blinks.RunTicksNewest` | empee3/fish/blink.S:49-300 | Through any run of adds, removes, syncs and ticks that leaves a location alone, its newest entry has ticked once for each tick. |
| `Blinks.AddedEntryBlinks` | empee3/fish/blink.S:49-300 | The closed form holds for an added entry after any run that does not touch its location. |
| `Blinks.AddGoesInFront` | empee3/fish/blink.S:135-169 | The new entry is in front, on and with a full countdown, its character alone appears on the screen, and the other entries stay. |
| `Blinks.RemoveTakesNewest` | empee3/fish/blink.S:187-237 | The entries are the old ones minus exactly the newest at the location, in the same order, and the screen stays. |
| `Blinks.RemoveLastLeavesNone` | empee3/fish/blink.S:187-237 | An entry alone at its location is gone after its removal. |
| `Blinks.RemoveFindsNone` | empee3/fish/blink.S:187-237 | Removing where there is no entry changes nothing. |
| `Blinks.SyncBringsInTime` | empee3/fish/blink.S:240-275 | After sync the two entries agree on lengths, countdown and state. |
| `Blinks.SyncCopiesTiming` | empee3/fish/blink.S:267-275 | Sync copies both lengths, countdown and state to the newest target entry, keeps its location and characters, and changes no other entry. |
| `Blinks.SyncedStayInTime` | empee3/fish/blink.S:49-300 | They agree after any further run that touches neither. |
| `Blinks.TickKeepsShown` | empee3/fish/blink.S:49-99 | A tick keeps every entry's cell showing the character of its state. |
| `Blinks.TickElsewhere` | empee3/fish/blink.S:49-99 | A tick changes no byte of the screen other than the characters of listed locations. |
| `Blinks.AddKeepsShownIff` | empee3/fish/blink.S:105-184 | Adding keeps all characters right if and only if the location is new or nothing is added. |
| `Blinks.SyncKeepsShownIff` | empee3/fish/blink.S:277-285 | Sync keeps all characters right if and only if the source is off, the target's characters are equal, or nothing is synced. |
| `Blinks.TidyRunShows` | empee3/fish/blink.S:49-300 | Every run that adds only at new locations and syncs only with entries that are off shows every entry as it is. |
| `Blinks.AddedCharacterBlinks` | empee3/fish/blink.S:49-300 | What the user sees at an added entry's cell follows the closed form through every such run. |
| `BlinkLists.FullIff` | empee3/fish/fish.c:160-170 | The list holds 2000 nodes if and only if the allocator finds no free slot. |
| `BlinkLists.AddedIsList` | empee3/fish/blink.S:159-162 | Inserting at the front keeps the nodes distinct and equal to the occupied slots. |
| `BlinkLists.AddKeepsListIff` | empee3/fish/blink.S:105-184 | Adding to a free slot leaves a list whose nodes are the occupied slots if and only if the location is not 0. |
| `BlinkLists.ZeroThenAddLoops` | empee3/fish/blink.S:105-184 | After an add at location 0 the next add reuses the slot and makes it point to itself: no finite list starts there. |
| `BlinkLists.UnlinkedIsList` | empee3/fish/blink.S:206-222 | Unlinking a node and clearing its slot removes exactly that entry and keeps the nodes equal to the occupied slots. |
| `BlinkDrivers.BlinkDriver.FindHelper` | empee3/fish/blink.S:351-379 | The slot of the newest entry at the location, or null. |
| `BlinkDrivers.BlinkDriver.Malloc` | empee3/fish/fish.c:160-170 | The first slot with location 0, or null. |
| `BlinkDrivers.BlinkDriver.Add` | empee3/fish/blink.S:105-184 | -1 exactly for a location off the screen or a full pool; otherwise the entry is in front, on, with a full countdown; still a list exactly when the location is not 0. |
| `BlinkDrivers.BlinkDriver.Remove` | empee3/fish/blink.S:187-237 | Removes exactly the newest entry at the location and frees its slot for the allocator; -1 exactly when there is none. |
| `BlinkDrivers.BlinkDriver.Sync` | empee3/fish/blink.S:240-300 | The target takes over lengths, countdown and state of the source; -1 exactly when either is missing. |
| `BlinkDrivers.BlinkDriver.TickEntry` | empee3/fish/blink.S:64-86 | Decrement with 16-bit wrap, signed test, and toggle with redraw. |
| `BlinkDrivers.BlinkDriver.Tick` | empee3/fish/blink.S:49-99 | Every entry ticks once, in list order, and the screen shows the result. |

## Left out

- Mazes.Maze.PickPoint: says nothing of the chance that a pick passes; a source of random numbers that never passes is a sequence that runs out.
- Files.ReadData: requires that offset and length add up without 32-bit wrap-around, as they do for every caller in the kernel, and a buffer that holds the clamped length.
- Descriptors.Process.Close: descriptor 8, which the range check lets through although the table has eight slots, reads memory behind the table and is excluded.
- Descriptors.Process.Read: for a used descriptor it is that of a regular file on an image whose block numbers are in range; what read_data does with others is in Files.ReadData. Descriptors of the RTC and the terminal are not read here, and directories are read by ReadDir.
- Descriptors.Process.ReadDir: sizes over 32 or below 0 are excluded; the zero written just behind the n-th byte is modelled.
- Kernels.Kernel.Execute: loading the program and the check that the file is executable are outside; a command that fails them is no event. Halting a shell supposes that the shell itself can be executed.
- read_dentry_by_index: a bounds check and three copies, with the bound off by one; it adds nothing to the look-up by name.
- VGA registers, palette, font, status bar and the 1440 bytes per plane that copy_image copies beyond the scroll area: not part of the picture.
- Real threads, locks, timers and the keyboard and button readers: reduced to directions that arrive between ticks in any order.
- The add-a-fruit call is not made from the tick loop and is proved for itself; colours and elapsed time are left out.
- The loop over levels in mazegame.c: StartLevel and PlayLevel cover one level, for any level number and any earlier movement.
- Maze cells are records rather than bytes; Lattice.EncodeTests and Lattice.EncodeUpdates tie the two together.
- Keyboard line editing, the keyboard buffers that a terminal switch saves, and vidmap: the screens and cursors alone are modelled.
- Page tables, kernel stacks and the context switch: only pids, parents, terminals and the active pids are kept.
- mp1_ioctl_find copies an entry to the caller and changes nothing; its search is FindHelper.
- empee1/mp1.S has the same interface as blink.S and is not part of this model.
