# MindTask node store, in Dafny

MindTask is a single-page task editor. It keeps one map from node id to node record. Each page of the app names the root of one tree in that map. Planner-only tasks hang under a hidden parent id that has no record of its own. Every edit replaces the whole map and, for most edits, first pushes the map it replaces onto a bounded undo stack.

The model covers:

- that store, as a class `Store.NodeStore` whose methods are the editor's handlers;
- the map each handler installs, as pure functions in `Edits`;
- the loops that walk the map (`getNodeDepth`, `findPageIdForNode`, the ancestry check of a drop, the subtree collection of a delete) as methods in `Walks`, each proved against a function;
- the projections the planner and the sorter compute from the map (`Planner`, `Sorter`).

The shape the store keeps is `Tree.Consistent`:

- no record under the hidden parent's id;
- every key is its record's `id`;
- roots have no parent;
- every parent named is stored or is the hidden parent;
- children point back at their parent and parents list their children;
- no child list repeats an id;
- every parent walk ends (`Chains.Acyclic`).

`Store.NodeStore.Valid` holds this invariant for the current map and for every snapshot on the undo stack. Every handler keeps it. The `Shape` module proves this for each handler's function.

Ids are integers here. The sample's string ids are numbered in `Seed`.

Inputs that come from outside the store are parameters:

- the fresh ids `generateId` would return;
- the answers to `window.confirm`;
- the current day;
- the reading of a date text (`parse` in `Planner`, `time` in `Sorter`);
- the weekday of a month's first day, and the month's length.

Where the prose description of the app and the code disagree, the model follows the code:

- **Zone bucketing.** `getTasksForPeriod` decides a node with a schedule start by that start alone and never looks at its slots (src/App.jsx:317-325). It is not "start or slot".
- **Heading depth.** Nothing in the store keeps headings at depth two or less. The panel only offers the switch there (src/App.jsx:580), and the mind map only draws a heading there (src/App.jsx:173). A node moved deeper keeps its `isHeading` flag.
- **Moving back restores the order** (`Edits.MoveThenBack`) only when the first move was applied, that is, when it did not fall off either end of the list.

## Model

| member | source | states |
|---|---|---|
| Nodes.Merge | src/App.jsx:755 | merging a patch into a record keeps its id, links, text and flags; each field the patch carries takes the patch's value and each field it omits keeps the record's |
| Nodes.MergeIdempotent | src/App.jsx:755 | merging the same patch twice is merging it once, and an empty patch changes nothing |
| Nodes.NewTask | src/App.jsx:783 | a fresh task is a leaf under the given parent: not a root, not a heading, not done, not collapsed, new, energy 0, no time tag, no slots |
| Nodes.PlannerTask | src/App.jsx:798 | a fresh planner task is a new, non-root leaf under the hidden planner parent, tagged as scheduled |
| Nodes.NewRoot | src/App.jsx:877 | the root of a new page is a root without parent or children |
| Nodes.IndexOf | src/App.jsx:784 | the result is -1 exactly when the id is absent; otherwise it is the position of the id's first occurrence |
| Nodes.InsertAt | src/App.jsx:786 | the copy is one longer, has the new id at the position, and shifts the elements after it by one |
| Nodes.Without | src/App.jsx:808 | the filtered list no longer holds the id and holds every other id exactly when the original does |
| Nodes.WithoutInserted | src/App.jsx:786 | removing an inserted fresh id gives back the original list |
| Nodes.Swap | src/App.jsx:854 | the two positions exchange their elements and every other position is unchanged |
| Nodes.SwapPermutes | src/App.jsx:854 | the swapped list is a permutation of the original |
| Nodes.SwapTwice | src/App.jsx:854 | swapping the same two positions again restores the list |
| Chains.DepthUnfold | src/App.jsx:719-727 | the depth is 0 at a missing node, a root or a node without parent, and otherwise one more than the parent's depth |
| Chains.TopUnfold | src/App.jsx:766 | the walk to the top stops at a node without parent and follows the parent otherwise |
| Chains.DepthAvoids | src/App.jsx:719-727 | an edit that rewires one node leaves the depth of every node whose walk never visits it unchanged |
| Chains.AcyclicHasNoCycle | src/App.jsx:722-725 | in a map where every walk ends, no sequence of parent links closes into a circle |
| Tree.Subtree | src/App.jsx:818 | the subtree holds its root and exactly the ids reachable from it through child lists |
| Tree.ParentNotBelow | src/App.jsx:835 | in a well-formed map a node's parent is never reachable from the node |
| Tree.SubtreeIsDescendants | src/App.jsx:835 | a stored node lies in the subtree of `n` exactly when `n` is on its walk up to the top |
| Tree.RenderDepthIsNodeDepth | src/App.jsx:301 | the depth the mind map passes down, one per level from a root, equals the depth `getNodeDepth` computes |
| History.Push | src/App.jsx:739 | the stack keeps its newest 20 entries, adds the snapshot on top and never grows past 21 |
| History.PushKeepsShortHistory | src/App.jsx:739 | a stack of 20 or fewer only gains the snapshot at the top |
| History.PushDropsOldest | src/App.jsx:739 | a full stack of 21 loses its oldest entry |
| History.Undone | src/App.jsx:742-747 | undo on an empty stack changes nothing; otherwise it restores the newest snapshot and pops it |
| History.UndoAfterPush | src/App.jsx:738-747 | an undo right after a history-keeping edit restores the map from before the edit, and the stack from before it when that stack was not full |
| Pages.PageOfRoot | src/App.jsx:767 | the result is None exactly when no page has the root; otherwise it is the id of the first page that has it |
| Pages.RootOfPage | src/App.jsx:881 | the result is None exactly when no page has the id; otherwise it is the root of the first page with the id |
| Pages.Retitled | src/App.jsx:857 | renaming keeps the length, every id and every root, and retitles exactly the pages with the given id |
| Pages.RetitledKeepsLookups | src/App.jsx:857 | renaming changes neither lookup |
| Pages.NewPageFound | src/App.jsx:874-879 | with fresh ids, the appended page is found for both its root and its id |
| Pages.AppendKeepsLookups | src/App.jsx:878 | appending a page keeps every lookup that already succeeded |
| Edits.SiblingAddedSpec | src/App.jsx:777-789 | on a root nothing changes; otherwise the fresh task sits right after the current node in its parent's list, only the parent changes, and only in its list, and dropping the new id from that list restores it |
| Edits.ChildAddedSpec | src/App.jsx:790-795 | the fresh task is last in the parent's list, the parent is expanded, and nothing else changes |
| Edits.DeleteUndoesAddSibling | src/App.jsx:777-789 | deleting a just-added sibling gives back the original map |
| Edits.DeleteUndoesAddChild | src/App.jsx:790-795 | deleting a just-added child gives back the original map, except that the parent stays expanded |
| Edits.DeleteUndoesCreatePlannerTask | src/App.jsx:796-800 | deleting a just-created planner task gives back the original map |
| Edits.OutdentedSpec | src/App.jsx:801-813 | nothing changes on a root or a child of a root; otherwise the node leaves its parent's list, follows the parent in the grandparent's list and takes the grandparent as parent, and no other record changes |
| Edits.NoShortCycles | src/App.jsx:804-807 | in a well-formed map a node, its parent and its grandparent are three distinct nodes |
| Edits.DeletedSpec | src/App.jsx:814-829 | nothing changes on a root or on a declined delete of a node with descendants; otherwise exactly the nodes below and at `n` are removed, `n` leaves its parent's list, and nothing else changes |
| Edits.DeletedKeys | src/App.jsx:817-825 | the removed ids are exactly those whose walk up passes through `n` |
| Edits.DeletedParent | src/App.jsx:824 | the stored parent survives, with `n` cut out of its list |
| Edits.DropOntoParentAllowed | src/App.jsx:833-835 | the ancestry check lets a node be dropped onto its own parent |
| Edits.DropOntoParentDuplicates | src/App.jsx:837-843 | the drop as written, onto the node's own parent, lists the node twice and breaks the map's shape |
| Edits.DropAgreesUnlessOntoParent | src/App.jsx:838-843 | away from the node's own parent, the drop as written and the corrected drop install the same map |
| Edits.DroppedSpec | src/App.jsx:832-845 | a refused drop changes nothing; otherwise the node leaves its old parent's list, is appended once to the expanded target's list, takes the target as parent, and nothing else changes |
| Edits.DetachedSpec | src/App.jsx:839 | detaching removes the node from its old parent's list and changes nothing else |
| Edits.MovedSpec | src/App.jsx:846-856 | a move off either end changes nothing; otherwise only the parent's list changes, by exchanging the node with its neighbour, as a permutation |
| Edits.MoveThenBack | src/App.jsx:846-856 | an applied move followed by the opposite move restores the map |
| Shape.WithTextKeepsShape | src/App.jsx:754 | a text edit keeps the map well formed |
| Shape.WithDataKeepsShape | src/App.jsx:755 | a data patch keeps the map well formed |
| Shape.CompleteToggledKeepsShape | src/App.jsx:756 | toggling completion keeps the map well formed |
| Shape.CollapseToggledKeepsShape | src/App.jsx:830 | toggling collapse keeps the map well formed |
| Shape.SeenKeepsShape | src/App.jsx:731-736 | clearing the new flag on focus keeps the map well formed |
| Shape.RootAddedKeepsShape | src/App.jsx:877-878 | adding a fresh root keeps the map well formed |
| Shape.SiblingAddedKeepsShape | src/App.jsx:777-789 | adding a sibling keeps the map well formed |
| Shape.ChildAddedKeepsShape | src/App.jsx:790-795 | adding a child keeps the map well formed |
| Shape.PlannerTaskCreatedKeepsShape | src/App.jsx:796-800 | creating a planner task keeps the map well formed |
| Shape.MovedKeepsShape | src/App.jsx:846-856 | reordering keeps the map well formed |
| Shape.OutdentedKeepsShape | src/App.jsx:801-813 | outdenting keeps the map well formed, including that every walk still ends |
| Shape.DeletedKeepsShape | src/App.jsx:814-829 | deleting a subtree keeps the map well formed and leaves no dangling child or parent reference |
| Shape.DroppedKeepsShape | src/App.jsx:832-845 | the corrected drop keeps the map well formed, including that every walk still ends |
| Walks.GetNodeDepth | src/App.jsx:719-727 | the loop ends and returns the depth: the parent hops before a root, a node without parent or a missing id |
| Walks.DepthAtTop | src/App.jsx:719-727 | a root or a missing node has depth 0, and a child of a root has depth 1 |
| Walks.PlannerTaskDepth | src/App.jsx:722-724 | a planner task has depth 1, because its hidden parent has no record |
| Walks.HeadingSwitchShows | src/App.jsx:590-596 | where the panel offers the switch, toggling it flips whether the mind map draws the node as a heading and changes no link |
| Walks.DropHidesHeading | src/App.jsx:173 | dropping a heading onto a target two or more levels down keeps the map well formed and the flag set, puts the node one level below the target, and the mind map no longer draws it as a heading |
| Walks.ReparentedLinks | src/App.jsx:837-843 | a drop leaves every parent link but the dragged node's and every root flag as they were, and points the dragged node at the target |
| Walks.DepthUnderTarget | src/App.jsx:719-727 | a node pointed at a target whose walk never visits it has depth one more than the target had before |
| Walks.FindPageIdForNode | src/App.jsx:764-769 | the loop ends and returns the page of the root at the top of the node's walk, or None when the walk does not end at a root with a page |
| Walks.NodeUnderRootFindsPage | src/App.jsx:764-769 | every node below a root finds that root's page |
| Walks.PlannerTaskHasNoPage | src/App.jsx:766-768 | a planner task belongs to no page |
| Walks.CheckDrop | src/App.jsx:833-835 | the loop ends and refuses exactly a drop onto the dragged node or onto a node whose walk up visits it |
| Walks.RefusedIsInsideSubtree | src/App.jsx:833-835 | a drop is refused exactly when the target lies in the dragged node's subtree |
| Walks.Collect | src/App.jsx:818 | the recursive collection adds the start id, adds only ids reachable from it, and adds the children of every stored id it adds |
| Walks.CollectSubtree | src/App.jsx:817-819 | collecting from an empty set gathers exactly the subtree |
| Planner.PeriodOf | src/App.jsx:322-324 | every hour falls in exactly one zone: before 12, 12 to 17, from 18 |
| Planner.ScheduledIgnoresSlots | src/App.jsx:317-325 | a node with a schedule start is in a zone exactly when its start's day and hour put it there, whatever its slots say |
| Planner.UnscheduledUsesSlots | src/App.jsx:326-328 | a node without a schedule start is in a zone exactly when it has that zone's slot |
| Planner.ScheduledInOneZone | src/App.jsx:315-331 | a scheduled node is listed in the zone of its start hour on its start day, in no other zone of that day, and in no zone of another day |
| Planner.DefaultHour | src/App.jsx:340-342 | the default hour of a zone is a valid hour inside that zone |
| Planner.Pad2 | src/App.jsx:343 | an hour below 100 is written as exactly two decimal digits whose value is the hour, with a leading zero below ten |
| Planner.StartText | src/App.jsx:343 | the start text is the day, a `T`, the zone's default hour in two digits and `:00` |
| Planner.StartTextsApart | src/App.jsx:343 | different zones write different start texts for the same day |
| Planner.CreatedTaskInZone | src/App.jsx:370-376 | a task created in a zone is scheduled, starts at the zone's default hour, hides its specific time, and is listed in that zone |
| Planner.DroppedOn | src/App.jsx:333-354 | a drop changes no id, link or root flag |
| Planner.DropLandsInZone | src/App.jsx:339-353 | after a drop the node is listed in the zone it was dropped on |
| Planner.DropAddsSlotOnce | src/App.jsx:345-352 | dropping an unscheduled node adds the zone's slot only when it is missing, so the slot appears exactly once and no duplicate is introduced |
| Planner.DropIdempotent | src/App.jsx:333-354 | dropping the same node on the same zone twice is dropping it once |
| Planner.Unplanned | src/App.jsx:365 | the filtered slots are exactly the old slots other than the zone's |
| Planner.RemoveUndoesDrop | src/App.jsx:365 | removing the slot a drop just added restores the slots |
| Planner.UnplanLeavesOtherZones | src/App.jsx:364-366 | removing an unscheduled node from a zone takes it out of that zone and leaves its other zones as they were |
| Planner.ClearedFallsBackToSlots | src/App.jsx:363 | after the schedule is cleared, the node is in a zone exactly when it has that zone's slot |
| Planner.RemovalAsWrittenKeepsSlot | src/App.jsx:362-363 | as written, a confirmed removal of a schedule-tagged node shown by its slot clears the schedule but leaves the node in the zone |
| Planner.Removal | src/App.jsx:362-367 | the removal writes nothing exactly when the node is tagged as scheduled and the user declines |
| Planner.RemovalLeavesZone | src/App.jsx:362-367 | after a removal the node has no schedule start, is no longer in the zone, and keeps all its other slots |
| Sorter.Select | src/App.jsx:428-430 | the filtered list holds exactly the records that match, takes no record more often than the input, and every element matches |
| Sorter.SelectOne | src/App.jsx:428-430 | a single record is kept exactly when it matches the query |
| Sorter.SelectAppend | src/App.jsx:428-430 | filtering a concatenation is concatenating the filtered parts, so kept records keep their input order and multiplicity |
| Sorter.CellIsFilteredModal | src/App.jsx:473-478 | a calendar cell lists exactly the day list's records that also pass the energy filter |
| Sorter.ModalShowsRoots | src/App.jsx:502-513 | a root with a deadline that day is in the day list but never in the cell |
| Sorter.PlannerTaskOnCalendar | src/App.jsx:473-478 | a task created in a planner zone shows in the calendar cell of its day |
| Sorter.Insert | src/App.jsx:429 | inserting keeps every element, adds one, and keeps an ordered list ordered |
| Sorter.Sort | src/App.jsx:429-430 | the result is an ordered permutation of the input |
| Sorter.OrderedIsSorted | src/App.jsx:429-430 | a list ordered between neighbours is ordered between any two positions |
| Sorter.TaskListSpec | src/App.jsx:429-430 | the schedule and deadline lists are sorted by time, hold exactly the matching records, and are permutations of the filtered records |
| Sorter.SortOrdered | src/App.jsx:429-430 | sorting an ordered list leaves it as it is |
| Sorter.SortIdempotent | src/App.jsx:429-430 | sorting twice is sorting once |
| Sorter.CellShown | src/App.jsx:484-487 | a cell shows the first four tasks at most, as a prefix, and the count of the rest; the count is positive only when four are shown |
| Sorter.LeadingBlanks | src/App.jsx:453-455 | the grid has between 0 and 6 leading blanks, six for a month that starts on a Sunday |
| Sorter.DayInWeekdayColumn | src/App.jsx:453-456 | each day of the month falls in its weekday's column, Monday first |
| Sorter.CalendarDays | src/App.jsx:454-456 | the grid holds the leading blanks, then day `d` at position blanks + d - 1 for every day of the month |
| Seed.SeedConsistent | src/App.jsx:43-113 | the sample tree is well formed |
| Seed.SeedHeadingsAllowed | src/App.jsx:43-113 | both sample headings sit at a depth where the panel offers the switch |
| Store.PushKeepsConsistent | src/App.jsx:739 | pushing a well-formed map keeps every snapshot on the stack well formed |
| Store.UndoAfterNewPage | src/App.jsx:874-879 | with ids fresh for every snapshot, an undo right after a new page restores a well-formed map without the new root while the new page still names that root, and pops one snapshot |
| Store.DeleteKeys | src/App.jsx:825 | deleting the collected ids one by one leaves the map without exactly those keys |
| Store.SwappedCopy | src/App.jsx:853-854 | the copied and swapped array holds the swapped list |
| Store.NodeStore.constructor | src/App.jsx:679-693 | the store starts from the sample map and page list, an empty undo stack and the first page active |
| Store.NodeStore.SetNodesWithHistory | src/App.jsx:738-741 | the replaced map is pushed onto the undo stack and the new map installed |
| Store.NodeStore.Undo | src/App.jsx:742-747 | the map and stack become what undo leaves, and the pages do not change |
| Store.NodeStore.UpdateNodeText | src/App.jsx:754 | the text is replaced without a history entry |
| Store.NodeStore.UpdateNodeData | src/App.jsx:755 | the patch is merged with a history entry |
| Store.NodeStore.ToggleComplete | src/App.jsx:756 | completion is flipped with a history entry |
| Store.NodeStore.ToggleCollapse | src/App.jsx:830 | collapse is flipped without a history entry |
| Store.NodeStore.HandleNodeFocus | src/App.jsx:731-736 | a focused new node stops being new, without a history entry |
| Store.NodeStore.ToggleHeading | src/App.jsx:590-596 | the switch is offered exactly at a non-root node of depth two or less; when used it flips the heading flag with a history entry |
| Store.NodeStore.AddSiblingNode | src/App.jsx:777-789 | installs the sibling insertion, with a history entry unless the node is a root |
| Store.NodeStore.AddChildNode | src/App.jsx:790-795 | installs the child insertion with a history entry |
| Store.NodeStore.CreatePlannerTask | src/App.jsx:796-800 | installs the planner task with a history entry |
| Store.NodeStore.PlannerCreateTask | src/App.jsx:370-376 | creates a planner task with the zone's start data |
| Store.NodeStore.OutdentNode | src/App.jsx:801-813 | installs the outdent, with a history entry unless it changes nothing |
| Store.NodeStore.DeleteNode | src/App.jsx:814-829 | deletes exactly when the node is not a root and either has no descendants or the user confirms; installs the deletion and pushes history exactly then |
| Store.NodeStore.OnDrop | src/App.jsx:832-845 | refuses exactly a drop into the dragged node's own subtree; otherwise installs the corrected drop with a history entry |
| Store.NodeStore.MoveNodeOrder | src/App.jsx:846-856 | installs the move, with a history entry exactly when it applies |
| Store.NodeStore.UpdatePageTitle | src/App.jsx:857 | retitles the pages and changes nothing else |
| Store.NodeStore.AddNewPage | src/App.jsx:874-879 | adds the fresh root and appends its page, makes that page active, and leaves the undo stack alone |
| Store.NodeStore.JumpToTask | src/App.jsx:770-775 | the node's page becomes active when it has one; otherwise the active page is kept |
| Store.NodeStore.PlannerDrop | src/App.jsx:333-354 | nothing for an unknown id or a slot already planned; otherwise merges the drop patch with a history entry |
| Store.NodeStore.RemoveTaskFromPlanner | src/App.jsx:356-368 | a planner task is deleted only once confirmed, with a snapshot pushed exactly when the delete happens; any other node gets the corrected removal patch, or nothing when the user declines to clear its schedule |

## Left out

- Rendering, focus state, pan and zoom, drag events, keyboard shortcuts, timers and the Electron shell: these are user interface and platform concerns outside the store.
- localStorage and JSON persistence: the store starts from the sample data, as on a first launch.
- Dates: `new Date`, `toISOString` and `getHours` become the caller-supplied `parse` and `time` functions and plain weekday and month-length parameters. The time-zone shift between the UTC day and the local hour is left to those functions.
- `generateId` is randomness. Fresh ids are parameters that must be absent from the map and different from the hidden parent. Id collisions and the empty-string id are not modelled.
- Ids are integers. A generated id has at most nine base-36 characters and so never equals the hidden parent's name; the model states this as the fresh-id precondition `f != PLANNER_HIDDEN_ROOT`.
- Records are read under their map key. A record whose `id` field differs from its key is excluded by the shape invariant.
- A handler that would crash on a missing record (reading a field of `undefined`) has the record's existence as a precondition.
- Store.NodeStore.UpdateNodeText: no call on an unknown id, which in the source creates a partial record.
- Store.NodeStore.UpdateNodeData: no call on an unknown id, which in the source creates a partial record.
- `Object.values(nodes)` order: the sorter and the calendar take the records as a given sequence.
- Select: its own contract gives membership and a multiplicity bound only; that kept records keep their input order and exact multiplicity is stated by Sorter.SelectAppend and Sorter.SelectOne.
- Sorter.Sort: stability is not proved. A NaN date is not modelled, since `time` returns an integer.
- Store.NodeStore.Undo: restores only the node map. The page list and the active page are not on the undo stack, as in the source.
- `window.confirm` and `alert` are boolean parameters and returned flags.

## Findings

| source | as written | input that shows it | evidently intended | confidence | as-written member | corrected member |
|---|---|---|---|---|---|---|
| src/App.jsx:837-843 | the drop builds the target's new list from the target record read before detaching; when the target is the old parent, the detach is overwritten and the node is appended again | a non-root node dropped onto its own parent | the node moves to the end of its parent's list and appears there once | high, not executed | Edits.DropOntoParentDuplicates | Edits.DroppedSpec, Shape.DroppedKeepsShape |
| src/App.jsx:362-363 | the removal branches on the `schedule` tag alone; the confirmed clear keeps the zone's slot, so a node shown by that slot stays in the zone | a node tagged `schedule` with an empty start and the zone's slot (the tag switch at src/App.jsx:620 leaves both), removal confirmed | the node leaves the zone it was removed from | medium, not executed | Planner.RemovalAsWrittenKeepsSlot | Planner.RemovalLeavesZone |
