/** The counting tools: `count_all_inv`, `count_inv_by_category`, `count_inv_by_status` and
    `count_inv_by_user`. The records the inventory service returns for a query are a parameter. */
module InventoryCounts {
  import opened Wrappers
  import opened Inventory

  /** A tool's decoded JSON argument. */
  type Query = map<string, string>

  /** Looking up a key the argument lacks raises `KeyError`, which the tools do not catch. */
  datatype ToolError = MissingKey(key: string)

  /** `{"total_count": n, "items": items}`. */
  datatype TotalReport = TotalReport(totalCount: nat, items: seq<Item>)

  /** `{"count": n, <key>: echo, "items": items}`, where `<key>` is "category", "status" or
      "username" depending on the tool. */
  datatype CountReport = CountReport(count: nat, echo: string, items: seq<Item>)

  /** `count_all_inv`: every record, and how many there are. */
  function CountAllInv(fetched: seq<Item>): (r: TotalReport)
    ensures r.totalCount == |r.items|
    ensures r.items == fetched
  {
    TotalReport(|fetched|, fetched)
  }

  /** The shared shape of `count_inv_by_category` and `count_inv_by_status`: the service has
      already selected `fetched` for the query; the tool counts it and echoes `query[key]`. */
  function CountFetched(query: Query, key: string, fetched: seq<Item>): (r: Result<CountReport, ToolError>)
    ensures r.Failure? <==> key !in query
    ensures r.Failure? ==> r.error == MissingKey(key)
    ensures r.Success? ==> r.value.items == fetched && r.value.count == |fetched| && r.value.echo == query[key]
  {
    if key in query then Success(CountReport(|fetched|, query[key], fetched))
    else Failure(MissingKey(key))
  }

  /** `count_inv_by_category`: `fetched` is what the service returns for the same argument. */
  function CountInvByCategory(query: Query, fetched: seq<Item>): (r: Result<CountReport, ToolError>)
    ensures r.Failure? <==> "cat_name" !in query
    ensures r.Failure? ==> r.error == MissingKey("cat_name")
    ensures r.Success? ==> r.value.count == |r.value.items| && r.value.items == fetched
    ensures r.Success? ==> r.value.echo == query["cat_name"]
  {
    CountFetched(query, "cat_name", fetched)
  }

  /** `count_inv_by_status`: `fetched` is what the service returns for the same argument. */
  function CountInvByStatus(query: Query, fetched: seq<Item>): (r: Result<CountReport, ToolError>)
    ensures r.Failure? <==> "item_status" !in query
    ensures r.Failure? ==> r.error == MissingKey("item_status")
    ensures r.Success? ==> r.value.count == |r.value.items| && r.value.items == fetched
    ensures r.Success? ==> r.value.echo == query["item_status"]
  {
    CountFetched(query, "item_status", fetched)
  }

  /** `item.get("last_updated_by") == username` for a string `username`: a record without
      the key yields `None`, which equals no string. */
  predicate UpdatedBy(item: Item, username: string) {
    item.lastUpdatedBy == Some(username)
  }

  /** The list comprehension of `count_inv_by_user`: the records updated by `username`, in
      their order in `items`. */
  function UserItems(items: seq<Item>, username: string): seq<Item> {
    if items == [] then []
    else
      var n := |items| - 1;
      UserItems(items[..n], username) + if UpdatedBy(items[n], username) then [items[n]] else []
  }

  /** The positions of the records updated by `username`, in ascending order. */
  function UserPositions(items: seq<Item>, username: string): seq<nat> {
    if items == [] then []
    else
      var n := |items| - 1;
      UserPositions(items[..n], username) + if UpdatedBy(items[n], username) then [n] else []
  }

  /** `sub` lists, in order, exactly the records of `items` updated by `username`: it is
      `items` read at a strictly increasing list of positions, and a position is on that list
      if and only if its record was updated by `username`. */
  ghost predicate ExactlyUpdatedBy(sub: seq<Item>, items: seq<Item>, username: string) {
    exists pos: seq<nat> ::
      |pos| == |sub| &&
      (forall k :: 0 <= k < |pos| ==> pos[k] < |items| && sub[k] == items[pos[k]]) &&
      (forall k, l :: 0 <= k < l < |pos| ==> pos[k] < pos[l]) &&
      (forall i :: 0 <= i < |items| ==> (i in pos <==> UpdatedBy(items[i], username)))
  }

  lemma {:induction false} UserPositionsSelect(items: seq<Item>, username: string)
    ensures var pos := UserPositions(items, username);
      |pos| == |UserItems(items, username)| &&
      (forall k :: 0 <= k < |pos| ==> pos[k] < |items| && UserItems(items, username)[k] == items[pos[k]]) &&
      (forall k, l :: 0 <= k < l < |pos| ==> pos[k] < pos[l]) &&
      (forall i :: 0 <= i < |items| ==> (i in pos <==> UpdatedBy(items[i], username)))
  {
    if items != [] {
      var n := |items| - 1;
      var init := items[..n];
      UserPositionsSelect(init, username);
      var p0 := UserPositions(init, username);
      assert forall i :: 0 <= i < n ==> init[i] == items[i];
      assert forall k :: 0 <= k < |p0| ==> p0[k] < n;
    }
  }

  /** The comprehension selects exactly the records updated by `username`, in order. */
  lemma UserItemsExactly(items: seq<Item>, username: string)
    ensures ExactlyUpdatedBy(UserItems(items, username), items, username)
  {
    UserPositionsSelect(items, username);
    var pos := UserPositions(items, username);
    assert |pos| == |UserItems(items, username)|;
  }

  /** `count_inv_by_user`: `all` is the whole inventory. The username is looked up before the
      inventory is read. */
  function CountInvByUser(query: Query, all: seq<Item>): (r: Result<CountReport, ToolError>)
    ensures r.Failure? <==> "username" !in query
    ensures r.Failure? ==> r.error == MissingKey("username")
    ensures r.Success? ==> r.value.echo == query["username"] && r.value.count == |r.value.items|
    ensures r.Success? ==> ExactlyUpdatedBy(r.value.items, all, query["username"])
  {
    if "username" in query then
      var username := query["username"];
      UserItemsExactly(all, username);
      var userItems := UserItems(all, username);
      Success(CountReport(|userItems|, username, userItems))
    else
      Failure(MissingKey("username"))
  }
}
