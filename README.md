# Home inventory analytics tools, modelled in Dafny

This project models the analytics layer of the home-inventory agent's tool module
(`home_inv_agent/tools.py`). The agent answers questions about a family's inventory. The
tools it can call count records, find the most active user, list recent updates, and turn a
receipt into new inventory items. Each counting and analytics tool first reads records from an
inventory service. In this model the records it reads are a parameter, a `seq<Item>`. The
receipt tool reads nothing from the service; it only saves.

Files and modules:

- `wrappers.dfy`, module `Wrappers`: `Option` (a missing key, Python `None`) and `Result` (a
  tool's reply or its error).
- `inventory.dfy`, module `Inventory`: the record `Item`, with an `Option<string>` for each field
  the tools read (`item_name`, `last_updated_by`, `last_updated_at`). It also holds `StrLe`,
  Python's order on `str` (code-point lexicographic), with proofs that it is a total order.
- `counts.dfy`, module `InventoryCounts`: `count_all_inv`, `count_inv_by_category`,
  `count_inv_by_status`, `count_inv_by_user`.
- `active_user.dfy`, module `ActiveUser`: `get_most_active_user`. The per-user counts live in
  an insertion-ordered dictionary, `UserCounts(order, counts)`. It is built by a loop, and the
  first user with the largest count is picked by a second loop, as Python's `max` does.
- `recent_updates.dfy`, module `RecentUpdates`: `get_recent_updates`. Python's stable
  `sorted(..., reverse=True)` is modelled as a stable insertion sort, `SortNewestFirst`. The
  model proves that any stable newest-first sort returns exactly the same list.
- `receipt.dfy`, module `Receipt`: the part of `process_receipt_image` after the model call.
  This is the `\[.*\]` search over the reply text, the loop that saves one item per entry
  (skipping entries that fail), and the reply built from the results.

The argument of a counting tool is a decoded JSON object, modelled as `map<string, string>`.
In the counting tools a missing key raises `KeyError`, which no handler catches. Here it is
the error result `MissingKey(key)`. The receipt tool's outer handler does catch such errors.
The elements of the array decoded from a receipt are general JSON values (`Receipt.Json`).
An entry's `item_name`, `category` and `quantity_status` are copied into the saved item
whatever JSON value they hold.

## Model

| member | source | states |
|---|---|---|
| `InventoryCounts.CountAllInv` | home_inv_agent/tools.py:50-52 | `total_count` is the length of `items`, and `items` is the inventory as read |
| `InventoryCounts.CountInvByCategory` | home_inv_agent/tools.py:54-57 | fails exactly when the argument lacks `cat_name`; otherwise `count` is the length of the records the service returned, which are passed through, and `category` echoes `cat_name` |
| `InventoryCounts.CountInvByStatus` | home_inv_agent/tools.py:59-62 | fails exactly when the argument lacks `item_status`; otherwise `count` is the length of the returned records, which are passed through, and `status` echoes `item_status` |
| `InventoryCounts.CountInvByUser` | home_inv_agent/tools.py:64-69 | fails exactly when the argument lacks `username`; otherwise it echoes the username, `count` equals the number of items, and the items are exactly the inventory records whose `last_updated_by` equals the username, in inventory order |
| `InventoryCounts.UserItemsExactly` | home_inv_agent/tools.py:68 | the comprehension equals the inventory read at a strictly increasing list of positions, and a position is on that list if and only if its record's `last_updated_by` is the username; so a record without the field never matches |
| `ActiveUser.CountUsers` | home_inv_agent/tools.py:73-76 | the loop's dictionary equals the histogram of users: the distinct users in order of first occurrence, each mapped to its number of records, with a record lacking `last_updated_by` counted under `"unknown"` |
| `ActiveUser.HistogramWellFormed` | home_inv_agent/tools.py:73-76 | each user appears once in the key order, and the keys are exactly the users that occur in the inventory |
| `ActiveUser.HistogramTotal` | home_inv_agent/tools.py:73-76 | the counts of the histogram sum to the number of records |
| `ActiveUser.DistinctPrefix` | home_inv_agent/tools.py:74-76 | the key order after reading a prefix of the inventory is a prefix of the final key order, because keys are only ever appended |
| `ActiveUser.FirstMostFrequent` | home_inv_agent/tools.py:78-81 | empty dictionary: no user and count 0; otherwise the chosen user is a key whose count is the result, no count exceeds it, and no earlier key in dictionary order has the same count |
| `ActiveUser.GetMostActiveUser` | home_inv_agent/tools.py:71-82 | `user_counts` is the histogram and sums to the number of records; empty inventory gives `None`, 0 and an empty dictionary; otherwise `count` is the chosen user's count and at least every other count, and on a tie the chosen user's first record comes before the first record of any other user with that count |
| `Inventory.StrLeTotal` | home_inv_agent/tools.py:89 | any two timestamps are comparable under Python's string order |
| `Inventory.StrLeTransitive` | home_inv_agent/tools.py:89 | Python's string order is transitive |
| `Inventory.StrLeAntisymmetric` | home_inv_agent/tools.py:89 | strings that are each at most the other are equal |
| `RecentUpdates.SortPermutes` | home_inv_agent/tools.py:89 | sorting neither loses nor duplicates a record (same multiset) |
| `RecentUpdates.SortIsNewestFirst` | home_inv_agent/tools.py:89 | the sorted list is non-increasing in `last_updated_at`, a missing value counting as `""` |
| `RecentUpdates.SortIsStable` | home_inv_agent/tools.py:89 | for every timestamp, the records that carry it appear in the same relative order as in the inventory |
| `RecentUpdates.SortIsTheStableSort` | home_inv_agent/tools.py:89 | every list that is newest first and keeps inventory order among equal timestamps equals `SortNewestFirst`, so the model returns what Python's stable sort returns |
| `RecentUpdates.StableNewestFirstUnique` | home_inv_agent/tools.py:89 | two newest-first lists that agree, per timestamp, on the order of the records carrying it are the same list |
| `RecentUpdates.MissingTimestampsLast` | home_inv_agent/tools.py:89 | in a newest-first list, every record after one without `last_updated_at` has the empty timestamp too |
| `RecentUpdates.GetRecentUpdates` | home_inv_agent/tools.py:84-97 | empty inventory: the reply without the newest record's fields; otherwise `recent_updates` holds min(10, n) records, newest first, drawn from the inventory, stable per timestamp, and every record left out is no newer than the last one kept; the three reported fields are those of the first listed record |
| `RecentUpdates.NewestIsEarliestOfLatest` | home_inv_agent/tools.py:89-95 | the record the reply's fields come from has the latest timestamp of the inventory, and every earlier inventory record is strictly older |
| `Receipt.ExtractArrayText` | home_inv_agent/tools.py:121-125 | a match exists if and only if some `[` is followed later by a `]`; the match runs from the first `[` to the last `]`, both included |
| `Receipt.ToItemInput` | home_inv_agent/tools.py:131-137 | building an item succeeds exactly for an object with `item_name`, `category` and `quantity_status`; the item copies their values, of any JSON type, into `item_name`, `cat_name` and `item_status`, and carries the comment "Added from receipt" and the caller's username |
| `Receipt.SuccessesLength` | home_inv_agent/tools.py:139-147 | the number of kept results is the number of successful entries, and at most the number of entries |
| `Receipt.SuccessesAt` | home_inv_agent/tools.py:129-141 | a failing entry does not stop the loop: each successful entry's result is kept, at the position given by the number of successes before it |
| `Receipt.AddReceiptItems` | home_inv_agent/tools.py:128-141 | the loop keeps, in order, the save results of exactly the entries whose item could be built and saved, and their number is at most the number of entries |
| `Receipt.ProcessReceipt` | home_inv_agent/tools.py:120-148 | no bracketed text: the error carrying the raw reply; undecodable text: the processing error; otherwise success with the decoded entries echoed, the kept save results, and `total_added` equal to their number and at most the number of entries |

## Left out

- The plant-health image pipeline in `Agriculture Assistant agent/image_analysis_service.py` (OpenCV colour masks and contours, KMeans, a threshold-based assessment) is floating-point image processing around library calls and is not part of this model. The plant-disease classifier files only train or call a TensorFlow model. That is floating-point numerics and I/O, and they are not part of this model.
- `Inventory.Item` keeps only the three fields the tools read (`item_name`, `last_updated_by`, `last_updated_at`). The records echoed back in the `items` of the counting tools and in `recent_updates` are therefore these projections, not the full service records; no count, order or selection depends on the other fields.
- The inventory and category services (`fetch_*`, `save_*`, `delete_*`) are outside this model. The records a tool reads are a parameter, and the save call is a function parameter of `ProcessReceipt` that may fail.
- `save_inventory_item` is modelled as a pure function. Its effect on the stored inventory and the order of its calls are not captured.
- `json.loads` of a tool argument is not modelled. The argument is taken as already decoded. The one-line pass-through tools (`fetch_all_cat`, `save_cat`, `delete_cat`, `fetch_all_inv`, `save_inv_item`, `fetch_inv_by_*`, `update_inv_item`, `delete_inv_item`) forward to the services without logic and are not modelled.
- Counting-tool argument values and record fields are strings or absent. JSON `null` and other non-string values there are not modelled. A `null` username would make `count_inv_by_user` match records without `last_updated_by`. A `null` timestamp would make the sort raise `TypeError` when the inventory holds another record.
- `process_receipt_image` before the model's reply is not modelled: the argument's `image_data` and `username` lookups, the API key, the `gemini-1.5-flash` call and base64 decoding. These are network and library calls; the reply text is a parameter. The error message text of the outer handler is reduced to `ProcessingFailed`.
- The decoding of the bracketed text by `json.loads` is a function parameter, `parse`, that returns the array's elements as JSON values.
- The tools' replies are datatypes rather than dictionaries. An empty `get_recent_updates` reply is the variant `NoRecentUpdates`, which carries no fields.
