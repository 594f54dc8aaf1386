# mrowy core in Dafny

This project models the core of *mrowy*, a grid-based simulation that has two parts:

- **Ant-colony path finding.** Ants walk a grid of nodes. Each node carries neighbour flags, a capacity and a capped pheromone level. An ant remembers the cells it visited and retraces them once it reaches its destination. A cohort manager periodically keeps the ants with the shortest remembered paths and tops the cohort up with fresh ants.
- **Fox population with a hunter.** Fox family groups keep a running member count. A hunter stands near fox dens and follows a yearly schedule of 60 hunting days. On each excursion it shoots foxes in a 7×7 box around itself, pregnant mothers first.

Around these two parts the project also models:

- the bounded random value used for every configured quantity;
- the mapping from a map image to terrain types;
- the neighbour flags of the node layer;
- the day-part table of the clock.

All state is immutable data. Every random draw is a parameter, constrained to the range the Python call can return. Each module is one `.dfy` file:

| module | file | models |
|---|---|---|
| `Common`, `Enums`, `Seqs`, `Grids` | `common.dfy`, `enums.dfy`, `seqs.dfy`, `grids.dfy` | shared types, enum values, Python list operations, grids as `seq<seq<T>>` |
| `RandomValue` | `random_value.dfy` | `MinMaxRandomValue.get_random_value` |
| `Nodes` | `nodes.dfy` | `Node`, directions, `transfer`, `deposit_pheromone` |
| `Visited` | `visited.dfy` | the ant's bounded, insertion-ordered memory |
| `Ants` | `ants.dfy` | `Ant.__init__`, `explore`, `choose_step_direction`, `step` |
| `AntPopulation` | `ant_population.dfy` | `Population.__init__`, `Population.step` |
| `FoxPopulation` | `fox_population.dfy` | `FoxGroup`, `PopulationManager` |
| `Hunting` | `hunter.dfy` | `Hunter` |
| `Terrain` | `terrain.dfy` | `mapImageToFieldType`, neighbour flags of `grid_and_objects` |
| `Time` | `time_manager.dfy` | `DayCycle`, `TimeManager.perform_time_step` |

Modelling decisions, where the code and its surroundings leave room:

- **Nodes.** `simulation/node.py` declares pheromones as one 4-vector per colony and has no `max_smell`. `simulation/ant.py` reads and writes `node.pheromones` as one number capped by `node.max_smell`. The model follows `simulation/ant.py`.
- **Directions.** `Direction` and `to_vector` are imported but defined nowhere. The directions are Up, Right, Down and Left, in the order of the `has_neighbor` flags. Up lowers the first coordinate and Right raises the second, which matches the flag computation in `simulation/initialize.py`.
- **Ant memory.** `Population.step` passes `max_memory=` to `Ant`, whose constructor takes no such argument. The model keeps `maxMemory` as a field of the ant. It must be at least 1.
- **Pheromone deposit.** The per-step deposit `5 / sqrt(age)` is passed in as a real number.
- **Elitist filter.** The test `len(copy) < 1.2 * m` is kept exactly, over the integers, as `5 * len < 6 * m`.
- **Returning ants.** A returning ant that stands on its destination swaps source and destination, reloads its memory from the reversed snapshot and walks back again (`simulation/ant.py:42-47`). It is marked ready to die only when its memory is empty, a branch the code comments as one that should not happen (`simulation/ant.py:49-55`). In the model that means its memory ran out somewhere other than its destination (`Ants.ArrivalRestartsWalk`).
- **Fox identity.** `Fox` has no `__eq__`, so foxes compare by identity. Each modelled fox carries a unique `id`, and membership and `list.remove` compare ids.
- **Hunter settings.** `Hunter` calls `default_culling_rate()` and `default_shooting_rate()` on the shooting settings. Those settings only define the fields `culling_rate` and `shooting_rate`. The model takes the values those settings produce as parameters.
- **Hunter position.** The constructor stores the chosen position as a plain pair, while `hunt` reads `.x` and `.y` from it. The model treats the position as a grid cell throughout.
- **Clock.** Time is a day count plus an hour. Consecutive days always have different day-of-month numbers, so "the day changed" in the code is the same as the day count changing.
- **Findings.** Where a proof showed that the code cannot do what it evidently means, the model keeps the code as written next to the corrected definition (see "## Findings").

## Model

| member | source | states |
|---|---|---|
| Common.Trunc | framework/population_manager.py:23 | `int()` of a float truncates toward zero: the result is within one of the input, on the zero side |
| RandomValue.Clamp | framework/min_max_random_value.py:32 | the clamped value lies in `[min, max]` when `min <= max`; a value already inside is unchanged; below-range values go to `min`; when `max < min` the result is `max`, because the outer `min` is applied last |
| RandomValue.ClampIdempotent | framework/min_max_random_value.py:32 | clamping an already clamped value changes nothing |
| RandomValue.GetRandomValue | framework/min_max_random_value.py:26-37 | a uniform draw is returned unclamped; normal and exponential draws are both passed through `Clamp(min, max, draw)`, so they land in `[min, max]` when `min <= max` and on `max` otherwise; any other kind is an error, and only such kinds are |
| RandomValue.ValueWithinBounds | framework/min_max_random_value.py:26-35 | for every supported kind with `min <= max`, the value lies in `[min, max]` |
| Nodes.DirectionAt | simulation/ant.py:98 | `Direction(i)` is the direction whose flag sits at position `i` |
| Nodes.Shift | simulation/initialize.py:74-77 | one move in any direction reaches a cell that shares a side with the start |
| Nodes.NewNode | simulation/node.py:7-16 | the four flags are stored in top, right, bottom, left order; capacity is 6 and fully spare; no scent |
| Nodes.Deposit | simulation/ant.py:130-137 | the new level is the old level plus the amount, capped at `max_smell`, so it never exceeds `max_smell`; nothing else about the node changes |
| Nodes.Transfer | simulation/ant.py:124-128 | the node left gains a spare place and the node entered loses one, with no check that one is free; the total spare capacity of the grid is conserved; the node left receives the deposit; all other nodes are unchanged; no node's scent exceeds its cap afterwards |
| Visited.AddToVisited | simulation/ant.py:28-35 | the added cell becomes the newest entry; a remembered cell is moved to the newest end with the others in their old order; a new cell evicts the oldest entry when the memory is full; the size bound and the absence of repeats are preserved |
| Visited.AddedOnce | simulation/ant.py:28-35 | after the addition the cell occurs exactly once |
| Visited.AddToVisitedElements | simulation/ant.py:28-35 | the cells remembered afterwards are the old ones plus the new one, minus the oldest when it was evicted |
| Ants.NewAnt | simulation/ant.py:8-26 | a new ant is outbound, of age 0, alive, without bonus, at its source, and remembers only its start cell |
| Ants.ExploreFrom | simulation/ant.py:113-122 | the result is the first of the 20 tried directions that is connected and does not lead back to the previous cell, or else the fallback draw |
| Ants.Explore | simulation/ant.py:110-122 | `explore` returns one of its draws, and returns an acceptable direction whenever one of the 20 tries is acceptable |
| Ants.Scents | simulation/ant.py:93-103 | one entry per direction in flag order: the neighbour's pheromone when that side is connected and on the grid, otherwise 0 |
| Ants.ArgMax | simulation/ant.py:108 | `np.argmax` is the first position of a largest value |
| Ants.ChooseStepDirection | simulation/ant.py:91-108 | the ant explores when the roll is below 0.2 or the strongest scent is below 40; otherwise it heads for a neighbour with the strongest scent, which is at least 40, and every direction earlier in flag order smells strictly weaker, so ties go to the first |
| Ants.Advance | simulation/ant.py:79-89 | an accepted move sets the previous field and adds the target to memory and changes nothing else; on reaching the destination, source and destination swap, the ant turns to returning with the destination bonus, and the snapshot equals the memory, with every other field, the destination bonus included, unchanged |
| Ants.OutboundStep | simulation/ant.py:65-89 | the ant moves exactly when the target is on the grid and the current node is connected towards it, and then the nodes change by the transfer from the current node to the target with the plain step deposit; otherwise only the age changes |
| Ants.ReturnMemory | simulation/ant.py:42-47 | on its destination, a returning ant swaps source and destination and reloads both its memory and its snapshot from the reversed snapshot; elsewhere nothing changes |
| Ants.Retrace | simulation/ant.py:57-61 | a returning move pops the newest remembered cell and moves there, so the memory shrinks by exactly that cell |
| Ants.RetraceMany | simulation/ant.py:57-61 | `k` returning moves in a row visit the remembered cells from newest to oldest; the ant stands on the `k`-th newest and remembers only the older ones |
| Ants.ReturningStep | simulation/ant.py:41-63 | with empty memory the ant is marked ready to die, stops returning, loses its bonus and swaps source and destination, and the nodes are untouched; otherwise it retraces one cell, and the nodes change by the transfer from the node it leaves to the cell it retraces to, with the step amount plus the bonus deposited |
| Ants.Step | simulation/ant.py:37-89 | every step ages the ant by one; the total spare capacity and the pheromone caps are kept; the ant and its memory stay on the grid; only a returning ant can become ready to die, and only when it stops returning |
| Ants.ArrivalRestartsWalk | simulation/ant.py:42-61 | a returning ant on its destination with a remembered path does not die: it turns round, keeps the length of its snapshot, and stands on the oldest cell of its former snapshot |
| AntPopulation.NewPopulation | simulation/population.py:42-48 | a new population has no ants, a full countdown and iteration 0 |
| AntPopulation.MinPathLength | simulation/population.py:62-71 | the minimum is at most the memory size and at most every returning ant's snapshot length, and it equals one of them |
| AntPopulation.Survivors | simulation/population.py:74-77 | the kept ants are exactly the returning ants whose snapshot is shorter than 1.2 times the minimum |
| AntPopulation.SurvivorsInOrder | simulation/population.py:74-77 | the survivors keep their original relative order |
| AntPopulation.RefreshedCohort | simulation/population.py:90-106 | after a refresh the cohort has `max(population_size, survivors)` ants: the survivors first, then fresh ants at the configured source heading for the target |
| AntPopulation.EmptyCohortRefill | simulation/population.py:59-106 | refreshing an empty cohort always happens and yields exactly `population_size` fresh ants |
| AntPopulation.Prepare | simulation/population.py:58-106 | the countdown drops by one; a refresh happens exactly when it reaches 0 or the cohort is empty, and then resets the countdown and counts one more life iteration; without a refresh the ants and the iteration are unchanged |
| AntPopulation.StepAll | simulation/population.py:109-110 | the first ant takes its own step on the nodes as given, and the nodes returned are those left once every ant has taken its own step, one after the other, on the shared grid; the cohort keeps its size and each ant is one step older; the total spare capacity and the pheromone caps are kept, and every ant stays on the grid |
| AntPopulation.StepAllInOrder | simulation/population.py:109-110 | ant `i` ends up as its own step taken on the nodes the ants before it left, one after the other, so each ant steps exactly once and in cohort order |
| AntPopulation.Living | simulation/population.py:112 | the ants kept are exactly those not ready to die |
| AntPopulation.Step | simulation/population.py:50-112 | one population step prepares the cohort, steps every ant once on the shared grid (the nodes returned are exactly those `StepAll` leaves) and drops the ants ready to die, so no remaining ant is ready to die and the cohort does not grow during stepping |
| AntPopulation.CohortPlaced | simulation/population.py:98-106 | fresh ants start at the configured source, so a refreshed cohort stays on the grid |
| FoxPopulation.NewFox | agents/fox.py:13-18 | a fox starts at age 0 at its den |
| FoxPopulation.RemoveById | framework/population_manager.py:62 | `list.remove` on foxes deletes exactly the first fox with that identity; an absent fox changes nothing |
| FoxPopulation.NewGroup | framework/population_manager.py:20-30 | a group starts with a dominant male and a dominant female followed by the extra members with the drawn sexes, all newborns standing at the den and not pregnant; it has `max(2, size)` members, and its count matches its members whenever the drawn size is at least 2 |
| FoxPopulation.CreatePopulation | framework/population_manager.py:20-51 | one group is appended per den, in den order, numbered by the den's index; each counts `int(size)` of its draw and holds `max(2, int(size))` newborns standing at that den and not pregnant: a male, a female, then the drawn sexes; the existing groups are kept; the identities of the new foxes are exactly the consecutive numbers from the first fresh one up to the returned next one, in roster order; consistent counts stay consistent when every drawn size is at least 2 |
| FoxPopulation.CreatePopulationIds | framework/population_manager.py:20-51 | when the existing foxes have distinct identities below the first fresh one, all foxes afterwards have distinct identities, all below the returned next one |
| FoxPopulation.GetFoxes | framework/population_manager.py:53-57 | the roster's length is the total length of the groups' member lists |
| FoxPopulation.GetFoxesMembership | framework/population_manager.py:53-57 | a fox is in the roster iff it is a member of some group |
| FoxPopulation.GetFoxesAppend | framework/population_manager.py:53-57 | the roster of two group lists is their rosters concatenated, in group order |
| FoxPopulation.FirstGroupWith | framework/population_manager.py:60-61 | the search finds the first group holding the fox, or none when no group holds it |
| FoxPopulation.RemoveFox | framework/population_manager.py:59-66 | the fox leaves only the first group holding it, whose count drops by one; the group is dissolved when its count reaches 0; other groups are unchanged; an absent fox changes nothing; consistent counts stay consistent |
| FoxPopulation.RemoveFoxRoster | framework/population_manager.py:53-66 | with consistent counts, removing a fox removes exactly its first occurrence from the roster |
| FoxPopulation.RemoveFoxIds | framework/population_manager.py:59-66 | removing a fox keeps the identities distinct and brings in no identity that was not there |
| FoxPopulation.AddFoxes | framework/population_manager.py:68-77 | `int(n)` cubs are appended to the parent's group, each exactly a new fox with the next fresh identity and its drawn sex, of age 0, standing at the parent's den and not pregnant; the group's count grows by as many; other groups are unchanged; a parent in no group changes nothing; consistent counts stay consistent |
| FoxPopulation.AddFoxesIds | framework/population_manager.py:68-77 | when the existing identities are distinct and below the first cub's, the cubs' consecutive identities keep all identities distinct, all below the next fresh one |
| Hunting.LookForDen | agents/hunter.py:48-54 | true iff a fox den lies on the grid within three cells of the position in both axes |
| Hunting.FindAvailablePositions | agents/hunter.py:38-46 | exactly the non-water cells with a den in range, each once, in row-major order |
| Hunting.NewHunter | agents/hunter.py:18-27 | a hunter stands on one of its available positions and has no hunting days yet; the constructor fails when no cell is available |
| Hunting.LegalDays | agents/hunter.py:59-63 | the legal days are `1..shooting_end` in increasing order, followed by `shooting_start..365` in increasing order; a day is legal iff it lies in one of the two ranges; no day repeats when the season does not wrap onto itself |
| Hunting.ShootingSchedule | agents/hunter.py:57-68 | the schedule is 60 legal days picked without replacement and sorted; fewer than 60 legal days is an error |
| Hunting.ScheduleDistinct | agents/hunter.py:59-68 | with the configured season (`end < start`), no day is scheduled twice |
| Hunting.RoundHalfEven | agents/hunter.py:80 | `round` gives the nearest integer, with ties to the even one |
| Hunting.BoxPartition | agents/hunter.py:94-104 | every fox in the grid-clipped box is a mother if pregnant and a nearby fox otherwise, never both |
| Hunting.MotherVictims | agents/hunter.py:109-112 | at most one mother is shot, exactly when the roll is below a hundredth of the culling rate and a mother is in the box, and that fox is a mother |
| Hunting.Quota | agents/hunter.py:112-116 | after the mother is accounted for, the number of nearby foxes shot is `min(remaining kills, nearby foxes)`, and never negative |
| Hunting.Victims | agents/hunter.py:106-117 | the mother comes first, then the sampled nearby foxes; all are in the box; no more than the kill count are shot when it is positive; a roster without repeats yields victims without repeats |
| Hunting.RemoveAll | agents/hunter.py:120-125 | every victim leaves the population in turn, and consistent group counts stay consistent |
| Hunting.RemoveAllRoster | agents/hunter.py:120-125 | with consistent counts, the roster afterwards is the roster with each victim removed once |
| Hunting.RemoveAllIds | agents/hunter.py:120-125 | removing the victims keeps fox identities distinct and brings in no identity that was not there |
| Hunting.Hunt | agents/hunter.py:71-128 | on day 1 the schedule is redrawn (fewer than 60 legal days is the only error). A day not in the schedule changes nothing else. A scheduled day is struck off once. A zero kill count ends the excursion there, with no removals and only the schedule changed. Otherwise the victims are removed from the population, and the hunter differs only in its schedule and its move to an available cell |
| Hunting.HuntKeepsScheduleSorted | agents/hunter.py:68-77 | excursions keep the schedule in increasing order |
| Hunting.HuntKeepsIdsUnique | agents/hunter.py:71-128 | an excursion keeps fox identities distinct and brings in no identity that was not there |
| Hunting.AsWrittenDraws | agents/hunter.py:86 | scaling the culling rate by a hundred, and changing nothing else, turns the percentage comparison into the comparison the code writes |
| Hunting.HuntAsWrittenAlwaysShootsMother | agents/hunter.py:71-117 | as written, with any roll in `[0, 1)`, a culling rate of at least 1 and a mother in the box, every excursion that shoots shoots a mother first |
| Hunting.HuntShootsMotherIffCull | agents/hunter.py:85-117 | with the rate read as a percentage, an excursion that shoots kills a pregnant fox iff the roll is below a hundredth of the rate and a mother is in the box, and then the mother is shot first |
| Terrain.MapColor | simulation/initialize.py:95-103 | orange maps to a path and black to a building, each iff it is that colour; every other colour, white included, maps to grass |
| Terrain.MapImage | simulation/initialize.py:89-104 | the grid has the image's shape, and each cell is the mapping of its pixel |
| Terrain.MapImageFields | simulation/initialize.py:95-103 | a mapped image never contains forest, water or urban cells |
| Terrain.NeighborFlags | simulation/initialize.py:70-77 | a side is open iff the adjacent cell in that direction is on the grid and is grass, forest or path |
| Terrain.GridNodes | simulation/initialize.py:69-79 | the intended node layer has the grid's shape, with each cell's flags in a fresh node |
| Terrain.GridNodesSound | simulation/initialize.py:70-77 | on the intended node layer an open side always leads onto the grid and onto a walkable cell; every node starts with full spare capacity and no scent |
| Terrain.GridNodesAsWritten | simulation/initialize.py:41-79 | as written, the loops visit every cell and work out its flags, yet the node list returned is empty, so no cell of a non-empty grid has a node and the list does not have the grid's shape |
| Time.TimesOfDay | framework/time_manager.py:19-25 | 24 entries. The sunset hour is dusk. The hour before sunrise is dawn (hour 23 when sunrise is 0) unless dusk overwrites it. Every other hour is day iff it lies in `[sunrise, sunset)`, and night otherwise |
| Time.DaylightSpan | framework/time_manager.py:20-23 | for `0 < sunrise < sunset` the day runs from dawn to dusk and the rest is night |
| Time.GetItem | framework/time_manager.py:27-28 | indices 0..23 read the hour; −24..−1 count from the end; anything else is an index error |
| Time.NextHour | framework/time_manager.py:52 | a time step adds exactly one hour |
| Time.FullDay | framework/time_manager.py:52 | 24 hourly steps reach the same hour of the next day |
| Time.NewTimeManager | framework/time_manager.py:37-44 | the clock starts at midnight of the start date with that day's table |
| Time.PerformTimeStep | framework/time_manager.py:49-58 | under the hourly step the clock advances one hour; the table is rebuilt exactly when the day changes, which is when the hour wraps to 0; the step returns the new hour's day part. Any other step returns nothing and changes nothing |

## Left out

- Rendering, window creation, event handling, the plotting code and all `print` logging. These are user interface and output only.
- File and image input/output: loading and saving the grid, opening the map image, and drawing the shortest path in `output_shortest_path_on_source_img`. The map image enters the model as a grid of colours after the transpose.
- The choice in `create_grid` and `grid_and_objects` between a saved grid, the image and a plain grass grid. It is file handling around the mapping and the flags, which are modelled.
- Sunrise and sunset computation by the astronomy library, and `datetime` arithmetic. The hours are parameters and time is a day count plus an hour.
- `Ant.pheromone_deposited` (`5 / sqrt(age)`, floating point). The deposit is a real parameter of each step.
- The random generator. Every draw is a parameter constrained to what the call can return. The constructor's `random.choice` of a hunter position is any natural number taken modulo the number of positions.
- `agents/fox.py` past the constructor. The file ends mid-definition, so fox movement, feeding, reproduction and death are not part of this model. Fox creation follows the three-argument constructor shown; `population_manager.py` passes five arguments.
- `simulation/colony.py`. It calls `Ant` and `Ant.step` with signatures that do not exist.
- Nodes.NewNode: pheromones are one scalar starting at 0, not one all-zero 4-vector per colony. The scalar is how `simulation/ant.py` reads and writes them.
- Nodes.Deposit: the node is always present; the `node is not None` guard is not modelled because every step passes a node from the grid.
- Hunting.Hunt: the `culling_rate` and `shooting_rate` values come in as parameters, because the settings accessors the code calls are not defined. The rate read once in the constructor is never used later, so it is not modelled.
- Hunting.MotherVictims: compares the roll with a hundredth of the culling rate, not with the rate itself as `agents/hunter.py:86` does (see "## Findings"). `Hunting.Hunt` does the same. Given `Hunting.AsWrittenDraws(d)`, both behave exactly as the code is written.
- Hunting.NewHunter: the chosen position is kept as a cell. The code stores a pair without `.x`, which `hunt` would read.
- Time.PerformTimeStep: the sun times of a new day are parameters of the step. The day-of-month comparison is modelled as a comparison of day counts, which agree for consecutive days.

## Findings

| source | as written | input that shows it | evidently intended | confidence | as-written member | corrected member |
|---|---|---|---|---|---|---|
| agents/hunter.py:86 | `random.random() < culling_rate` compares a roll in [0, 1) with a culling rate the settings clamp to [1, 30] | any roll, rate 10: a mother is always culled | the comment on line 85 expects a 10% chance for the average rate of 10, so the rate is a percentage: `random() < rate / 100` | medium, not executed | Hunting.HuntAsWrittenAlwaysShootsMother | Hunting.HuntShootsMotherIffCull |
| simulation/initialize.py:71-79 | the loops compute the four neighbour flags but never build a node, and never append `node_column`, so `nodes` stays empty | any grid with at least one cell: `nodes == []` | one `Node((up, right, down, left))` per cell, collected column by column | high, not executed | Terrain.GridNodesAsWritten | Terrain.GridNodesSound |
