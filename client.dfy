/**
 * The browser side (static/js/script.js) as a state machine without I/O:
 * the stored identity, the text box, the content the code image shows, the
 * last notice, the history panel and how many history loads were issued.
 * Network outcomes, the random part of a new identity and the user's typing
 * are inputs; the requests a handler issues are its results.
 */
module Client {

  import opened Wrappers
  import opened Text
  import opened QuoteEscape
  import opened Models

  /** The `localStorage` key of the identity, and the prefix of a new one. */
  const StorageKey := "qr_vault_user_id"
  const IdPrefix := "usr_"

  const EnterContentFirst := "Enter content first"
  const SavedNotice := "Successfully added to vault"
  const SaveFailed := "Save failed"
  const ConnectionError := "Server connection error"
  const RemovedNotice := "Removed from history"
  const DeleteFailed := "Delete failed"

  /** How a `POST /api/save` ended. */
  datatype SaveOutcome =
    | SaveOk                              // `response.ok`
    | SaveRejected(error: Option<string>) // not ok; the body's `error` field, if it has one
    | SaveThrew                           // the fetch rejected, or the body was not JSON

  /** How a `DELETE /api/history/<id>` ended. */
  datatype DeleteOutcome = DeleteOk | DeleteRejected | DeleteThrew

  /** How a `GET /api/history` ended. */
  datatype HistoryOutcome = HistoryLoaded(items: seq<RecordDict>) | HistoryThrew

  /** The requests the page sends; each carries the identity. */
  datatype SaveRequest = SaveRequest(content: string, userId: string)
  datatype DeleteRequest = DeleteRequest(recordId: int, userId: string)
  datatype HistoryRequest = HistoryRequest(userId: string)

  /** One entry of the history list: what it shows and what its two buttons pass on. */
  datatype HistoryRow = HistoryRow(content: string, createdAt: int, viewArgument: string, deleteId: int)

  /** The history panel: the count badge and either the empty-vault notice or the rows. */
  datatype HistoryView = HistoryView(count: nat, panel: Panel)
  datatype Panel = VaultEmpty | Rows(rows: seq<HistoryRow>)

  /** One item of the list; its view button's argument is escaped as the page does it. */
  function RenderRow(item: RecordDict): HistoryRow {
    HistoryRow(item.content, item.createdAt, EscapeQuotes(item.content), item.id)
  }

  /**
   * `renderHistory(items)`: the count is the number of items, the empty
   * notice shows exactly when there are none, and otherwise there is one
   * row per item, in order, showing the item's content, whose delete button
   * names the item's id and whose view button hands the content back intact
   * whenever it has no backslash or raw line break.
   */
  function RenderHistory(items: seq<RecordDict>): (v: HistoryView)
    ensures v.count == |items|
    ensures v.panel == VaultEmpty <==> items == []
    ensures v.panel.Rows? ==> |v.panel.rows| == |items|
    ensures v.panel.Rows? ==> forall k :: 0 <= k < |items| ==>
      && v.panel.rows[k].content == items[k].content
      && v.panel.rows[k].deleteId == items[k].id
      && v.panel.rows[k].viewArgument == EscapeQuotes(items[k].content)
    ensures v.panel.Rows? ==> forall k :: 0 <= k < |items| && PlainForLiteral(items[k].content) ==>
      LexViewArgument(v.panel.rows[k].viewArgument) == Literal(items[k].content, ")")
  {
    if items == [] then HistoryView(0, VaultEmpty)
    else
      var rows := seq(|items|, k requires 0 <= k < |items| => RenderRow(items[k]));
      assert forall k :: 0 <= k < |items| && PlainForLiteral(items[k].content) ==>
        LexViewArgument(rows[k].viewArgument) == Literal(items[k].content, ")") by {
        forall k | 0 <= k < |items| && PlainForLiteral(items[k].content)
          ensures LexViewArgument(rows[k].viewArgument) == Literal(items[k].content, ")")
        {
          PlainViewArgumentRoundTrip(items[k].content);
        }
      }
      HistoryView(|items|, Rows(rows))
  }

  /** The page's state. */
  class Page {
    var storage: map<string, string>   // `localStorage`
    var userId: string                 // `USER_ID`
    var input: string                  // the text box
    var displayed: Option<string>      // the text the code image encodes (`currentQR`); None before the first
    var notice: Option<string>         // the last toast
    var historyLoads: nat              // `loadHistory` calls issued so far
    var shown: seq<RecordDict>         // the items of the last history load rendered
    var history: Option<HistoryView>  // None until a history load is rendered

    /** The identity is stored under its key and is never empty; a panel is the rendering of the items shown. */
    ghost predicate Valid()
      reads this
    {
      && StorageKey in storage && storage[StorageKey] == userId && userId != []
      && (history.Some? ==> history.value == RenderHistory(shown))
    }

    /**
     * Loading the script: `USER_ID` is the stored identity when there is a
     * non-empty one, and otherwise `"usr_"` followed by the random and time
     * parts in `token`, which is then stored.
     */
    constructor Load(stored: map<string, string>, token: string)
      ensures Valid()
      ensures StorageKey in stored && stored[StorageKey] != [] ==>
        userId == stored[StorageKey] && storage == stored
      ensures !(StorageKey in stored && stored[StorageKey] != []) ==>
        userId == IdPrefix + token && storage == stored[StorageKey := userId]
      ensures input == [] && displayed == None && notice == None && historyLoads == 0
      ensures shown == [] && history == None
    {
      if StorageKey in stored && stored[StorageKey] != [] {
        userId := stored[StorageKey];
        storage := stored;
      } else {
        userId := IdPrefix + token;
        storage := stored[StorageKey := IdPrefix + token];
      }
      input, displayed, notice, historyLoads := [], None, None, 0;
      shown, history := [], None;
    }

    /** `window.onload`: the first history load. */
    method OnLoad() returns (request: HistoryRequest)
      requires Valid()
      modifies this`historyLoads
      ensures Valid() && historyLoads == old(historyLoads) + 1 && request == HistoryRequest(userId)
    {
      historyLoads := historyLoads + 1;
      request := HistoryRequest(userId);
    }

    /** The user types into the text box. */
    method Type(text: string)
      requires Valid()
      modifies this`input
      ensures Valid() && input == text
    {
      input := text;
    }

    /**
     * The generate button: blank input only shows "Enter content first";
     * otherwise the trimmed text is encoded and sent to be saved. The text
     * box keeps what was typed.
     */
    method Generate() returns (request: Option<SaveRequest>)
      requires Valid()
      modifies this`notice, this`displayed
      ensures Valid()
      ensures Strip(input, JavaScript) == [] ==>
        request == None && notice == Some(EnterContentFirst) && displayed == old(displayed)
      ensures Strip(input, JavaScript) != [] ==>
        && request == Some(SaveRequest(Strip(input, JavaScript), userId))
        && displayed == Some(Strip(input, JavaScript))
        && notice == old(notice)
    {
      var val := Strip(input, JavaScript);
      if val == [] {
        notice := Some(EnterContentFirst);
        return None;
      }
      displayed := Some(val);
      request := Some(SaveRequest(val, userId));
    }

    /**
     * `saveToVault` once the response is in: success reloads the history;
     * a rejection shows the server's reason (or "Save failed" when it gives
     * none); a failed connection shows "Server connection error".
     */
    method OnSaveResponse(outcome: SaveOutcome) returns (reload: Option<HistoryRequest>)
      requires Valid()
      modifies this`notice, this`historyLoads
      ensures Valid()
      ensures reload.Some? <==> outcome.SaveOk?
      ensures reload.Some? ==> reload.value == HistoryRequest(userId) && historyLoads == old(historyLoads) + 1
      ensures reload.None? ==> historyLoads == old(historyLoads)
      ensures notice == Some(match outcome
        case SaveOk => SavedNotice
        case SaveRejected(e) => if e.Some? && e.value != [] then e.value else SaveFailed
        case SaveThrew => ConnectionError)
    {
      match outcome {
        case SaveOk =>
          notice := Some(SavedNotice);
          historyLoads := historyLoads + 1;
          reload := Some(HistoryRequest(userId));
        case SaveRejected(e) =>
          notice := Some(if e.Some? && e.value != [] then e.value else SaveFailed);
          reload := None;
        case SaveThrew =>
          notice := Some(ConnectionError);
          reload := None;
      }
    }

    /** A row's delete button: `deleteFromVault(id)` sends the id of the item that row shows, and the identity. */
    method ClickDelete(k: nat) returns (request: DeleteRequest)
      requires Valid() && history.Some? && k < |shown|
      ensures request == DeleteRequest(shown[k].id, userId)
    {
      request := DeleteRequest(history.value.panel.rows[k].deleteId, userId);
    }

    /**
     * `deleteFromVault` once the response is in: success shows "Removed from
     * history" and reloads; a rejection does nothing at all; a failed
     * connection shows "Delete failed".
     */
    method OnDeleteResponse(outcome: DeleteOutcome) returns (reload: Option<HistoryRequest>)
      requires Valid()
      modifies this`notice, this`historyLoads
      ensures Valid()
      ensures reload.Some? <==> outcome.DeleteOk?
      ensures reload.Some? ==> reload.value == HistoryRequest(userId) && historyLoads == old(historyLoads) + 1
      ensures reload.None? ==> historyLoads == old(historyLoads)
      ensures notice == match outcome
        case DeleteOk => Some(RemovedNotice)
        case DeleteRejected => old(notice)
        case DeleteThrew => Some(DeleteFailed)
    {
      match outcome {
        case DeleteOk =>
          notice := Some(RemovedNotice);
          historyLoads := historyLoads + 1;
          reload := Some(HistoryRequest(userId));
        case DeleteRejected =>
          reload := None;
        case DeleteThrew =>
          notice := Some(DeleteFailed);
          reload := None;
      }
    }

    /** `loadHistory` once the response is in: a list is rendered; a failure changes nothing. */
    method OnHistoryResponse(outcome: HistoryOutcome)
      requires Valid()
      modifies this`shown, this`history
      ensures Valid()
      ensures shown == if outcome.HistoryLoaded? then outcome.items else old(shown)
      ensures history == if outcome.HistoryLoaded? then Some(RenderHistory(outcome.items)) else old(history)
    {
      if outcome.HistoryLoaded? {
        shown := outcome.items;
        history := Some(RenderHistory(outcome.items));
      }
    }

    /** `viewItem(content)`: the text box and the code image both take the content. */
    method ViewItem(content: string)
      requires Valid()
      modifies this`input, this`displayed
      ensures Valid() && input == content && displayed == Some(content)
    {
      input := content;
      displayed := Some(content);
    }

    /**
     * A row's view button: its `onclick` text `viewItem('<escaped>')` runs
     * only when it is exactly that one call, that is when the literal ends
     * right before the final `)`; then `viewItem` gets the literal's value.
     * Content with no backslash or raw line break arrives intact; otherwise
     * the escape lets the lexer read something else, or the text does not
     * parse and the page stays as it was.
     */
    method ClickView(k: nat)
      requires Valid() && history.Some? && k < |shown|
      modifies this`input, this`displayed
      ensures Valid()
      ensures PlainForLiteral(shown[k].content) ==> input == shown[k].content && displayed == Some(shown[k].content)
      ensures match LexViewArgument(EscapeQuotes(shown[k].content))
        case Literal(value, rest) =>
          if rest == ")" then input == value && displayed == Some(value)
          else input == old(input) && displayed == old(displayed)
        case _ => input == old(input) && displayed == old(displayed)
    {
      var row := history.value.panel.rows[k];
      match LexViewArgument(row.viewArgument)
      case Literal(value, rest) =>
        if rest == ")" {
          ViewItem(value);
        }
      case _ =>
    }
  }

  /** Reloading the page with the storage a page left behind keeps the identity. */
  method ReloadKeepsIdentity(first: Page, token: string) returns (second: Page)
    requires first.Valid()
    ensures second.userId == first.userId && second.storage == first.storage
  {
    second := new Page.Load(first.storage, token);
  }
}
