# To-do list derived state, modelled in Dafny

This project models the derived-state layer of a small to-do list
application (`src/store/todoList.ts`). The application keeps two pieces of
state: the list of to-do records `{id, text, isComplete}` and a filter
selection. Two values are derived from them:

- the **filtered list**. The "완료" (completed) selection keeps the completed
  items. The "미완료" (uncompleted) selection keeps the uncompleted ones.
  Every other selection, which in practice is "전체 보기" (show all), returns
  the list itself.
- the **statistics**: the total number of items, the number completed, the
  number not completed, and the completed fraction. The fraction is 0 for an
  empty list instead of a division by zero.

Everything is in one module, `TodoList`, in `todo_list.dfy`:

- `TodoItem`, `TodoListFilter` (`All | Completed | Uncompleted`, standing for
  the three label strings) and `TodoListStats` are datatypes.
- `InitialList` and `InitialFilter` are the defaults of the two state holders:
  an empty list and show-all.
- `FilterByCompletion` is `list.filter(...)` on the completion flag.
  `Filtered` is the filter switch. `Percent` is the guarded quotient.
  `Stats` builds the statistics record.
- The reference definitions the lemmas are stated against are these.
  `Matches(f, item)` says which items a selection should show.
  `Embeds`/`IsSubsequence` describe a subsequence by strictly increasing
  positions. `SelectsExactly`/`KeepsExactlyInOrder` describe "exactly the
  matching positions, in order". `PositionsWhere` is the set of positions
  holding a (un)completed item.

The code is pure: both getters are expressions over the list. So the model
is functions and lemmas, with no classes or loops. Dafny functions are
deterministic, so calling either getter twice on the same input gives the
same result by construction.

## Model

| member | source | states |
|---|---|---|
| `TodoList.FilterByCompletion` | src/store/todoList.ts:29-32 | the filtered list is no longer than the input, every kept item has the requested completion flag, and it holds only items of the input (by multiset, so no item more often than the input has it) |
| `TodoList.Filtered` | src/store/todoList.ts:28-35 | with the show-all selection (the `default` branch) the result is the input list itself; for every selection the result is no longer than the input, every item in it matches the selection, and every item in it is an item of the input |
| `TodoList.KeepsExactlyMatching` | src/store/todoList.ts:28-35 | for each selection, the result holds exactly the items at the positions matching the selection, in their original relative order (a strictly increasing list of positions, and a position is in it if and only if its item matches) |
| `TodoList.FilteredCharacterized` | src/store/todoList.ts:28-35 | both directions: a sequence holds exactly the matching items in their original order if and only if it equals the filtered list, so the filtered list is the only such sequence |
| `TodoList.FilteredIsSubsequence` | src/store/todoList.ts:28-35 | for every selection the filtered list is a subsequence of the input |
| `TodoList.SubsequenceBounds` | src/store/todoList.ts:28-35 | any subsequence, and so any filtered list, is no longer than the input, and every element of it is an element of the input |
| `TodoList.FilteredIdempotent` | src/store/todoList.ts:28-35 | filtering a filtered list again with the same selection changes nothing |
| `TodoList.PartitionLength` | src/store/todoList.ts:29-32 | the completed and uncompleted lists' lengths add up to the input's length |
| `TodoList.Partition` | src/store/todoList.ts:29-32 | the completed and uncompleted lists together hold each item exactly as often as the input does (multiset union), their lengths sum to the input length, and no item appears in both |
| `TodoList.Percent` | src/store/todoList.ts:47 | the fraction is 0 when there are no items; otherwise fraction times total equals the completed count; it lies in [0, 1]; it is 1 if and only if the total is nonzero and every item is complete |
| `TodoList.Stats` | src/store/todoList.ts:43-54 | `totalNum` is the list length; `totalCompletedNum` is the length of the completed list and `totalUncompletedNum` the length of the uncompleted list; the two add up to `totalNum`, and each lies in [0, `totalNum`]; `percentCompleted` is 0 for an empty list, otherwise `totalCompletedNum / totalNum`, and always in [0, 1] |
| `TodoList.StatsCountPositions` | src/store/todoList.ts:44-46 | `totalCompletedNum` is the number of positions holding a completed item, and `totalUncompletedNum` the number holding an uncompleted one |
| `TodoList.StatsPercentAllComplete` | src/store/todoList.ts:47 | `percentCompleted` is 1 if and only if the list is nonempty and every item is complete |
| `TodoList.InitialState` | src/store/todoList.ts:9-19 | with the default state (empty list, show-all) the filtered list is empty and the statistics are all zero |
| `TodoList.ThreeItemExample` | src/store/todoList.ts:28-54 | for items 1 (open), 2 and 3 (done), the completed filter yields items 2 and 3, and the statistics are 3 total, 2 completed, 1 uncompleted, fraction 2/3 |

## Left out

- The state-library machinery: `atom` and `selector`, their keys, subscriptions, caching and recomputation. Only the bodies of the two `get` callbacks and the atoms' default values are modelled. The current list and filter are plain parameters of `Filtered` and `Stats`.
- `src/pages/TodoList.tsx`: it only renders components and reads state through a hook.
- Adding, toggling and deleting items, id generation and id uniqueness: that code lives in components that are not part of this model, so no operation for it is written here.
- The filter labels are the strings "전체 보기", "완료" and "미완료"; the model uses the three constructors of `TodoListFilter` instead. The source's `switch` sends every value other than the two named labels to its `default` branch. Because the type admits only those three strings, that branch is exactly `All`.
- Stats: `percentCompleted` is an exact `real`, not an IEEE double. So the rounding of `totalCompletedNum / totalNum` (2/3, for one) is not modelled. The counts are unbounded integers; the source's counts are lengths of an in-memory array, far below the range where JavaScript numbers lose precision.
