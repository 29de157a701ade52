/** The part of `process_receipt_image` that works on the model's reply: finding the JSON
    array in the reply text and saving one inventory item per entry of that array. The image
    decoding, the generative model call, JSON decoding and the inventory service are outside
    this model; decoding and saving are parameters that may fail. */
module Receipt {
  import opened Wrappers

  /** A decoded JSON value; a number is kept as its literal text. Subscripting anything but
      an object by a key raises, and so does subscripting an object by a key it lacks. */
  datatype Json =
    | JNull
    | JBool(b: bool)
    | JNumber(literal: string)
    | JString(s: string)
    | JArray(elems: seq<Json>)
    | JObject(fields: map<string, Json>)

  /** The argument passed to `save_inventory_item` for one entry. The three copied values are
      whatever JSON values the entry holds, not only strings. */
  datatype ItemInput = ItemInput(itemName: Json, catName: Json, itemStatus: Json, comment: string, username: string)

  /** The comment every item added from a receipt carries. */
  const ReceiptComment := "Added from receipt"

  /** Why processing a receipt failed: no bracketed text in the reply (the reply is returned
      as `raw_response`), or an exception caught by the outer handler (here: the bracketed
      text is not valid JSON). */
  datatype ReceiptError = CouldNotExtract(rawResponse: string) | ProcessingFailed

  /** The success reply: the elements of the decoded array, the results of the saves that succeeded, and how many. */
  datatype ReceiptReport<R> = ReceiptReport(extractedItems: seq<Json>, addedItems: seq<R>, totalAdded: nat)

  /** The position of the first `c` in `s`. */
  function FirstIndexOf(s: string, c: char): (r: Option<nat>)
    ensures r.None? <==> c !in s
    ensures r.Some? ==> r.value < |s| && s[r.value] == c && c !in s[..r.value]
  {
    if s == [] then None
    else if s[0] == c then Some(0)
    else match FirstIndexOf(s[1..], c)
      case None => None
      case Some(i) =>
        assert s[..i + 1] == [s[0]] + s[1..][..i];
        Some(i + 1)
  }

  /** The position of the last `c` in `s`. */
  function LastIndexOf(s: string, c: char): (r: Option<nat>)
    ensures r.None? <==> c !in s
    ensures r.Some? ==> r.value < |s| && s[r.value] == c && c !in s[r.value + 1..]
  {
    if s == [] then None
    else if s[|s| - 1] == c then Some(|s| - 1)
    else
      var init := s[..|s| - 1];
      assert s == init + [s[|s| - 1]];
      match LastIndexOf(init, c)
      case None => None
      case Some(i) =>
        assert s[i + 1..] == init[i + 1..] + [s[|s| - 1]];
        Some(i)
  }

  /** `re.search(r'\[.*\]', text, re.DOTALL)`: the leftmost match starts at the first `[` if
      any `]` follows it, and the greedy `.*` runs it to the last `]`. */
  function ExtractArrayText(text: string): (r: Option<string>)
    ensures r.Some? <==> exists i, j :: 0 <= i < j < |text| && text[i] == '[' && text[j] == ']'
    ensures r.Some? ==> exists i, j :: 0 <= i < j < |text| && r.value == text[i..j + 1] &&
                                       text[i] == '[' && '[' !in text[..i] &&
                                       text[j] == ']' && ']' !in text[j + 1..]
  {
    match (FirstIndexOf(text, '['), LastIndexOf(text, ']'))
    case (Some(i), Some(j)) =>
      if i < j then Some(text[i..j + 1])
      else
        assert forall a :: 0 <= a < i ==> text[a] != '[' by {
          forall a | 0 <= a < i ensures text[a] != '[' {
            assert text[a] == text[..i][a];
          }
        }
        assert forall b :: j < b < |text| ==> text[b] != ']' by {
          forall b | j < b < |text| ensures text[b] != ']' {
            assert text[b] == text[j + 1..][b - j - 1];
          }
        }
        None
    case (None, _) =>
      assert forall a :: 0 <= a < |text| ==> text[a] != '[';
      None
    case (_, None) =>
      assert forall b :: 0 <= b < |text| ==> text[b] != ']';
      None
  }

  /** The dictionary built for one entry; `None` when building it raises (a missing key, or an
      entry that is not an object). */
  function ToItemInput(entry: Json, username: string): (r: Option<ItemInput>)
    ensures r.Some? <==> entry.JObject? && "item_name" in entry.fields &&
                         "category" in entry.fields && "quantity_status" in entry.fields
    ensures r.Some? ==> r.value.itemName == entry.fields["item_name"] &&
                        r.value.catName == entry.fields["category"] &&
                        r.value.itemStatus == entry.fields["quantity_status"] &&
                        r.value.comment == ReceiptComment &&
                        r.value.username == username
  {
    match entry
    case JObject(f) =>
      if "item_name" in f && "category" in f && "quantity_status" in f then
        Some(ItemInput(f["item_name"], f["category"], f["quantity_status"], ReceiptComment, username))
      else None
    case _ => None
  }

  /** What one entry ends in: the result of saving its item, or `None` when building the item
      or saving it raised. */
  function Outcome<R>(entry: Json, username: string, save: ItemInput -> Option<R>): Option<R> {
    match ToItemInput(entry, username)
    case None => None
    case Some(input) => save(input)
  }

  /** The results held in `outcomes`, in order. */
  function Successes<R>(outcomes: seq<Option<R>>): seq<R> {
    if outcomes == [] then []
    else
      var n := |outcomes| - 1;
      Successes(outcomes[..n]) + if outcomes[n].Some? then [outcomes[n].value] else []
  }

  /** The outcome of every entry, in order. */
  function Outcomes<R>(entries: seq<Json>, username: string, save: ItemInput -> Option<R>): (r: seq<Option<R>>)
    ensures |r| == |entries|
    ensures forall i :: 0 <= i < |entries| ==> r[i] == Outcome(entries[i], username, save)
  {
    seq(|entries|, i requires 0 <= i < |entries| => Outcome(entries[i], username, save))
  }

  /** How many outcomes succeeded. */
  function SuccessCount<R>(outcomes: seq<Option<R>>): nat {
    if outcomes == [] then 0
    else
      var n := |outcomes| - 1;
      SuccessCount(outcomes[..n]) + if outcomes[n].Some? then 1 else 0
  }

  /** A failure skips only its own entry: there is one result per successful outcome, and the
      `i`-th outcome, when successful, is found after the results of the successes before it. */
  lemma {:induction false} SuccessesAt<R>(outcomes: seq<Option<R>>, i: nat)
    requires i < |outcomes| && outcomes[i].Some?
    ensures |Successes(outcomes)| == SuccessCount(outcomes)
    ensures SuccessCount(outcomes[..i]) < |Successes(outcomes)|
    ensures Successes(outcomes)[SuccessCount(outcomes[..i])] == outcomes[i].value
  {
    var n := |outcomes| - 1;
    var init := outcomes[..n];
    SuccessesLength(init);
    if i < n {
      SuccessesAt(init, i);
      assert init[..i] == outcomes[..i];
    } else {
      assert init == outcomes[..i];
    }
  }

  lemma {:induction false} SuccessesLength<R>(outcomes: seq<Option<R>>)
    ensures |Successes(outcomes)| == SuccessCount(outcomes) <= |outcomes|
  {
    if outcomes != [] {
      SuccessesLength(outcomes[..|outcomes| - 1]);
    }
  }

  /** The loop of `process_receipt_image`: for every entry, build the item, save it and keep
      the result; an entry whose building or saving raises is skipped and the loop goes on. */
  method AddReceiptItems<R>(entries: seq<Json>, username: string, save: ItemInput -> Option<R>)
    returns (added: seq<R>)
    ensures added == Successes(Outcomes(entries, username, save))
    ensures |added| == SuccessCount(Outcomes(entries, username, save)) <= |entries|
  {
    added := [];
    var i := 0;
    while i < |entries|
      invariant 0 <= i <= |entries|
      invariant added == Successes(Outcomes(entries[..i], username, save))
    {
      var outcome := None;
      var input := ToItemInput(entries[i], username);
      if input.Some? {
        outcome := save(input.value);
      }
      ghost var before := Outcomes(entries[..i], username, save);
      ghost var after := Outcomes(entries[..i + 1], username, save);
      assert after[..i] == before;
      assert after[i] == outcome;
      if outcome.Some? {
        added := added + [outcome.value];
      }
      i := i + 1;
    }
    assert entries[..i] == entries;
    SuccessesLength(Outcomes(entries, username, save));
  }

  /** `process_receipt_image` from the model's reply text on: `parse` stands for `json.loads`
      and `save` for `save_inventory_item`, each `None` where the original raises. */
  method ProcessReceipt<R>(
    responseText: string, username: string,
    parse: string -> Option<seq<Json>>, save: ItemInput -> Option<R>)
    returns (r: Result<ReceiptReport<R>, ReceiptError>)
    ensures ExtractArrayText(responseText).None? ==> r == Failure(CouldNotExtract(responseText))
    ensures ExtractArrayText(responseText).Some? && parse(ExtractArrayText(responseText).value).None? ==>
      r == Failure(ProcessingFailed)
    ensures r.Success? ==>
      var entries := parse(ExtractArrayText(responseText).value).value;
      r.value.extractedItems == entries &&
      r.value.addedItems == Successes(Outcomes(entries, username, save)) &&
      r.value.totalAdded == |r.value.addedItems| <= |entries|
    ensures r.Failure? <==> ExtractArrayText(responseText).None? || parse(ExtractArrayText(responseText).value).None?
  {
    var arrayText := ExtractArrayText(responseText);
    if arrayText.None? {
      return Failure(CouldNotExtract(responseText));
    }
    var entries := parse(arrayText.value);
    if entries.None? {
      return Failure(ProcessingFailed);
    }
    var added := AddReceiptItems(entries.value, username, save);
    r := Success(ReceiptReport(entries.value, added, |added|));
  }
}
