/**
 * Worked runs of the whole system, page and store together, each proved
 * from the handlers' contracts alone.
 */
module Scenarios {

  import opened Wrappers
  import opened Text
  import opened Models
  import opened Routes
  import opened Client
  import opened QuoteEscape

  /**
   * A new store: saving `content` (already stripped) for `user` lists that
   * record with id 1; deleting it empties the list, and the page shows the
   * empty vault with a count of zero.
   */
  method SaveListDeleteList(content: string, user: string, now: int)
    returns (first: seq<RecordDict>, second: seq<RecordDict>, view: HistoryView)
    requires content != [] && Trimmed(content, Python) && user != []
    ensures first == [RecordDict(1, content, now)]
    ensures second == [] && view == HistoryView(0, VaultEmpty)
  {
    var vault := new Vault();
    first := SaveToEmptyVault(vault, content, user, now);
    second := DeleteOnlyRecord(vault, user);
    view := RenderHistory(second);
  }

  /** Saving into an empty store, then listing. */
  method SaveToEmptyVault(vault: Vault, content: string, user: string, now: int) returns (first: seq<RecordDict>)
    requires content != [] && Trimmed(content, Python) && user != []
    requires vault.Valid() && vault.users == map[] && vault.records == map[] && vault.nextRecordId == 1
    modifies vault
    ensures vault.Valid() && first == [RecordDict(1, content, now)]
    ensures IsOwner(vault.users, vault.records, user, 1)
    ensures Owned(vault.users, vault.records, user) == {ToDict(vault.records[1])}
  {
    SaveFirst(vault, content, user, now);
    var listed := vault.History(Some(user));
    first := listed.body.items;
    assert multiset(first) == multiset{RecordDict(1, content, now)};
    assert first[0] in multiset(first);
    assert first == [first[0]];
  }

  /** The save itself: a 201 that makes record 1 the user's only record. */
  method SaveFirst(vault: Vault, content: string, user: string, now: int)
    requires content != [] && Trimmed(content, Python) && user != []
    requires vault.Valid() && vault.users == map[] && vault.records == map[] && vault.nextRecordId == 1
    modifies vault
    ensures vault.Valid() && IsOwner(vault.users, vault.records, user, 1)
    ensures ToDict(vault.records[1]) == RecordDict(1, content, now)
    ensures Owned(vault.users, vault.records, user) == {RecordDict(1, content, now)}
  {
    StripTrimmed(content, Python);
    assert Owned(vault.users, vault.records, user) == {};
    var saved := vault.Save(Some(content), Some(user), now, NoFault);
    assert saved.status == 201;
    assert saved.body.record == ToDict(vault.records[1]) == RecordDict(1, content, now);
    assert Owned(vault.users, vault.records, user) == Owned(old(vault.users), old(vault.records), user) + {saved.body.record};
  }

  /** Deleting the one record a user owns, then listing. */
  method DeleteOnlyRecord(vault: Vault, user: string) returns (second: seq<RecordDict>)
    requires vault.Valid() && IsOwner(vault.users, vault.records, user, 1)
    requires Owned(vault.users, vault.records, user) == {ToDict(vault.records[1])}
    modifies vault
    ensures vault.Valid() && second == []
  {
    var deleted := vault.Delete(1, Some(user), true);
    assert deleted.status == 200;
    var listed := vault.History(Some(user));
    second := listed.body.items;
    assert |multiset(second)| == 0;
  }

  /** Whitespace-only input sends nothing and shows the validation notice. */
  method BlankInputSendsNothing(stored: map<string, string>, token: string)
    returns (request: Option<SaveRequest>, notice: Option<string>)
    ensures request == None && notice == Some(EnterContentFirst)
  {
    var page := new Page.Load(stored, token);
    page.Type("   ");
    assert AllSpace("   ", JavaScript);
    request := page.Generate();
    notice := page.notice;
  }

  /** A save the server rejects with a reason shows that reason and does not reload the history. */
  method RejectedSaveShowsReason(stored: map<string, string>, token: string)
    returns (notice: Option<string>, loads: nat)
    ensures notice == Some("quota exceeded") && loads == 0
  {
    var page := new Page.Load(stored, token);
    var reload := page.OnSaveResponse(SaveRejected(Some("quota exceeded")));
    notice, loads := page.notice, page.historyLoads;
  }

  /**
   * A listed item whose content is a single backslash: its view button's
   * call does not parse, so clicking it leaves the text box and the image
   * as they were.
   */
  method BackslashViewDoesNothing(stored: map<string, string>, token: string, typed: string, id: int, now: int)
    returns (input: string, displayed: Option<string>)
    ensures input == typed && displayed == None
  {
    var page := new Page.Load(stored, token);
    page.OnHistoryResponse(HistoryLoaded([RecordDict(id, "\\", now)]));
    page.Type(typed);
    EscapeQuotesBreaksTrailingBackslash();
    page.ClickView(0);
    input, displayed := page.input, page.displayed;
  }

  /**
   * A listed item whose content is a backslash and a quote: the literal
   * closes early, the handler text is not one call, and clicking view leaves
   * the text box and the image as they were.
   */
  method EarlyCloseViewDoesNothing(stored: map<string, string>, token: string, typed: string, id: int, now: int)
    returns (input: string, displayed: Option<string>)
    ensures input == typed && displayed == None
  {
    var page := new Page.Load(stored, token);
    page.OnHistoryResponse(HistoryLoaded([RecordDict(id, "\\'", now)]));
    page.Type(typed);
    EscapeQuotesClosesEarly();
    page.ClickView(0);
    input, displayed := page.input, page.displayed;
  }
}
