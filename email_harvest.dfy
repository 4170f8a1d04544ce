/** `extract_emails` without its file handling: for every record with a truthy
    `publisher_inn`, the emails found in all of its strings, gathered per publisher. */
module EmailHarvest {
  import opened JsonValues
  import opened StringCollector
  import opened EmailPattern

  const PublisherField := "publisher_inn"

  /** The elements of a sequence, as a set. */
  function Elements(xs: seq<string>): set<string> {
    set x | x in xs
  }

  /** Everything `find` reports for any of the texts (so far, the texts seen in order). */
  function UnionFound(texts: seq<string>, find: string -> seq<string>): set<string> {
    if texts == [] then {}
    else UnionFound(texts[..|texts| - 1], find) + Elements(find(texts[|texts| - 1]))
  }

  /** An element is gathered from the texts exactly when some text yields it. */
  lemma {:induction false} UnionFoundMembers(texts: seq<string>, find: string -> seq<string>, e: string)
    ensures e in UnionFound(texts, find) <==> exists i :: 0 <= i < |texts| && e in find(texts[i])
    decreases |texts|
  {
    if texts != [] {
      var n := |texts| - 1;
      UnionFoundMembers(texts[..n], find, e);
      assert forall i :: 0 <= i < n ==> texts[..n][i] == texts[i];
    }
  }

  /** Every email `find_emails_in_text` reports for any of the texts. */
  function EmailsIn(texts: seq<string>): set<string> {
    UnionFound(texts, FindEmails)
  }

  /** An email is gathered from the texts exactly when `find_emails_in_text` reports it for
      one of them. */
  lemma EmailsInMembers(texts: seq<string>, e: string)
    ensures e in EmailsIn(texts) <==> exists i :: 0 <= i < |texts| && e in FindEmails(texts[i])
  {
    UnionFoundMembers(texts, FindEmails, e);
  }

  /** The emails in every string of one record, at any depth. */
  function RecordEmails(record: Json): set<string> {
    EmailsIn(Collect(record))
  }

  /** The publisher a record is gathered under, if its `publisher_inn` is truthy. */
  function PublisherOf(record: Json): Option<Key>
    requires KeyableField(record, PublisherField)
  {
    FieldKey(record, PublisherField)
  }

  /** Every message is a dict whose truthy `publisher_inn` can be hashed: the inputs the loop
      handles without raising. */
  predicate Harvestable(messages: seq<Json>) {
    forall i :: 0 <= i < |messages| ==> KeyableField(messages[i], PublisherField)
  }

  /** `publishers_emails` after the loop has seen `messages`, in order, when `emailsOf` gives
      the emails of one record: a publisher's set is created (empty) the first time the
      publisher appears and then grows by each of its records' emails. */
  function GatherBy(messages: seq<Json>, emailsOf: Json -> set<string>): map<Key, set<string>>
    requires Harvestable(messages)
    decreases |messages|
  {
    if messages == [] then map[]
    else
      var acc := GatherBy(messages[..|messages| - 1], emailsOf);
      var record := messages[|messages| - 1];
      match PublisherOf(record)
      case None => acc
      case Some(k) => acc[k := (if k in acc then acc[k] else {}) + emailsOf(record)]
  }

  lemma {:induction false} GatherByKeys(messages: seq<Json>, emailsOf: Json -> set<string>, k: Key)
    requires Harvestable(messages)
    ensures k in GatherBy(messages, emailsOf) <==> exists i :: 0 <= i < |messages| && PublisherOf(messages[i]) == Some(k)
    decreases |messages|
  {
    if messages != [] {
      var n := |messages| - 1;
      GatherByKeys(messages[..n], emailsOf, k);
      assert forall i :: 0 <= i < n ==> messages[..n][i] == messages[i];
    }
  }

  lemma {:induction false} GatherByContents(messages: seq<Json>, emailsOf: Json -> set<string>, k: Key, e: string)
    requires Harvestable(messages) && k in GatherBy(messages, emailsOf)
    ensures e in GatherBy(messages, emailsOf)[k] <==>
      exists i :: 0 <= i < |messages| && PublisherOf(messages[i]) == Some(k) && e in emailsOf(messages[i])
    decreases |messages|
  {
    var n := |messages| - 1;
    var init := messages[..n];
    assert forall i :: 0 <= i < n ==> init[i] == messages[i];
    var acc := GatherBy(init, emailsOf);
    if k in acc {
      GatherByContents(init, emailsOf, k, e);
    } else {
      GatherByKeys(init, emailsOf, k);
    }
  }

  lemma HarvestableInsert(before: seq<Json>, record: Json, after: seq<Json>)
    requires Harvestable(before + after) && KeyableField(record, PublisherField)
    ensures Harvestable(before + [record] + after)
  {
    var with, without := before + [record] + after, before + after;
    forall i | 0 <= i < |with| ensures KeyableField(with[i], PublisherField) {
      if i < |before| {
        assert with[i] == without[i];
      } else if i > |before| {
        assert with[i] == without[i - 1];
      }
    }
  }

  /** The map after a non-empty sequence, from the map after all of it but its last record. */
  lemma GatherByLast(messages: seq<Json>, emailsOf: Json -> set<string>)
    requires Harvestable(messages) && messages != []
    ensures Harvestable(messages[..|messages| - 1])
    ensures var acc, record := GatherBy(messages[..|messages| - 1], emailsOf), messages[|messages| - 1];
      GatherBy(messages, emailsOf) ==
        match PublisherOf(record)
        case None => acc
        case Some(k) => acc[k := (if k in acc then acc[k] else {}) + emailsOf(record)]
  {
  }

  lemma {:induction false} GatherBySkips(before: seq<Json>, record: Json, after: seq<Json>, emailsOf: Json -> set<string>)
    requires Harvestable(before + after) && KeyableField(record, PublisherField)
    requires PublisherOf(record).None?
    ensures Harvestable(before + [record] + after)
    ensures GatherBy(before + [record] + after, emailsOf) == GatherBy(before + after, emailsOf)
    decreases |after|
  {
    HarvestableInsert(before, record, after);
    var with, without := before + [record] + after, before + after;
    GatherByLast(with, emailsOf);
    if after == [] {
      assert with[..|with| - 1] == before && with[|with| - 1] == record;
      assert without == before;
    } else {
      var n := |after| - 1;
      GatherByLast(without, emailsOf);
      assert without[..|without| - 1] == before + after[..n];
      assert with[..|with| - 1] == before + [record] + after[..n];
      assert with[|with| - 1] == without[|without| - 1];
      GatherBySkips(before, record, after[..n], emailsOf);
    }
  }

  /** `publishers_emails` after the loop has seen `messages`. */
  function Aggregate(messages: seq<Json>): map<Key, set<string>>
    requires Harvestable(messages)
  {
    GatherBy(messages, RecordEmails)
  }

  /** The publishers are exactly the truthy `publisher_inn` values of the messages, even
      those whose records hold no email; and a publisher's set is the union of the emails
      of all its records. */
  lemma AggregateContents(messages: seq<Json>, k: Key, e: string)
    requires Harvestable(messages)
    ensures k in Aggregate(messages) <==> exists i :: 0 <= i < |messages| && PublisherOf(messages[i]) == Some(k)
    ensures k in Aggregate(messages) ==>
      (e in Aggregate(messages)[k] <==>
       exists i :: 0 <= i < |messages| && PublisherOf(messages[i]) == Some(k) && e in RecordEmails(messages[i]))
  {
    GatherByKeys(messages, RecordEmails, k);
    if k in Aggregate(messages) {
      GatherByContents(messages, RecordEmails, k, e);
    }
  }

  /** A record without a truthy `publisher_inn` changes nothing, wherever it stands. */
  lemma AggregateSkips(before: seq<Json>, record: Json, after: seq<Json>)
    requires Harvestable(before + after) && KeyableField(record, PublisherField)
    requires PublisherOf(record).None?
    ensures Harvestable(before + [record] + after)
    ensures Aggregate(before + [record] + after) == Aggregate(before + after)
  {
    GatherBySkips(before, record, after, RecordEmails);
  }

  /** One more record: the map after `messages[..i + 1]` from the map after `messages[..i]`. */
  lemma AggregateStep(messages: seq<Json>, i: nat)
    requires Harvestable(messages) && i < |messages|
    ensures Harvestable(messages[..i]) && Harvestable(messages[..i + 1])
    ensures var acc := Aggregate(messages[..i]);
      Aggregate(messages[..i + 1]) ==
        match PublisherOf(messages[i])
        case None => acc
        case Some(k) => acc[k := (if k in acc then acc[k] else {}) + RecordEmails(messages[i])]
  {
    assert messages[..i + 1][..i] == messages[..i];
  }

  /** One more text: what the texts up to `j` yield, from what those before `j` yield. */
  lemma EmailsInStep(texts: seq<string>, j: nat)
    requires j < |texts|
    ensures EmailsIn(texts[..j + 1]) == EmailsIn(texts[..j]) + Elements(FindEmails(texts[j]))
  {
    assert texts[..j + 1][..j] == texts[..j];
  }

  /** The innermost loop of `extract_emails`: each email found in one string is added to
      the publisher's set. */
  method AddFound(publishersEmails: map<Key, set<string>>, k: Key, foundEmails: seq<string>)
    returns (result: map<Key, set<string>>)
    requires k in publishersEmails
    ensures result == publishersEmails[k := publishersEmails[k] + Elements(foundEmails)]
  {
    result := publishersEmails;
    assert foundEmails[..0] == [] && Elements([]) == {};
    assert publishersEmails[k] + {} == publishersEmails[k];
    assert publishersEmails[k := publishersEmails[k]] == publishersEmails;
    for t := 0 to |foundEmails|
      invariant result == publishersEmails[k := publishersEmails[k] + Elements(foundEmails[..t])]
    {
      assert Elements(foundEmails[..t + 1]) == Elements(foundEmails[..t]) + {foundEmails[t]} by {
        assert foundEmails[..t + 1] == foundEmails[..t] + [foundEmails[t]];
      }
      ghost var prev := result;
      result := result[k := result[k] + {foundEmails[t]}];
      assert result == publishersEmails[k := prev[k] + {foundEmails[t]}];
      assert prev[k] + {foundEmails[t]} == publishersEmails[k] + Elements(foundEmails[..t + 1]);
    }
    assert foundEmails[..|foundEmails|] == foundEmails;
  }

  /** The loop over the strings of one record: every email found in any of them is added to
      the publisher's set. */
  method AddEmails(publishersEmails: map<Key, set<string>>, k: Key, allStrings: seq<string>)
    returns (result: map<Key, set<string>>)
    requires k in publishersEmails
    ensures result == publishersEmails[k := publishersEmails[k] + EmailsIn(allStrings)]
  {
    result := publishersEmails;
    assert allStrings[..0] == [] && EmailsIn([]) == {};
    assert publishersEmails[k] + {} == publishersEmails[k];
    assert publishersEmails[k := publishersEmails[k]] == publishersEmails;
    for j := 0 to |allStrings|
      invariant result == publishersEmails[k := publishersEmails[k] + EmailsIn(allStrings[..j])]
    {
      EmailsInStep(allStrings, j);
      var foundEmails := FindEmails(allStrings[j]);
      ghost var prev := result;
      result := AddFound(result, k, foundEmails);
      assert result == publishersEmails[k := prev[k] + Elements(foundEmails)];
      assert prev[k] + Elements(foundEmails) == publishersEmails[k] + EmailsIn(allStrings[..j + 1]);
    }
    assert allStrings[..|allStrings|] == allStrings;
  }

  /** The loop of `extract_emails` that fills `publishers_emails`. */
  method ExtractEmails(messages: seq<Json>) returns (publishersEmails: map<Key, set<string>>)
    requires Harvestable(messages)
    ensures publishersEmails == Aggregate(messages)
  {
    publishersEmails := map[];
    for i := 0 to |messages|
      invariant publishersEmails == Aggregate(messages[..i])
    {
      AggregateStep(messages, i);
      var record := messages[i];
      var publisherInn := Get(record, PublisherField);
      if !TruthyOpt(publisherInn) {
        continue;
      }
      var k := KeyOf(publisherInn.value);
      if k !in publishersEmails {
        publishersEmails := publishersEmails[k := {}];
      }
      var allStrings := CollectStrings(record);
      publishersEmails := AddEmails(publishersEmails, k, allStrings);
    }
    assert messages[..|messages|] == messages;
  }

  /** `l` lists the elements of `s`, each once. */
  ghost predicate ListsOnce(l: seq<string>, s: set<string>) {
    && (forall x :: x in l <==> x in s)
    && (forall i, j :: 0 <= i < j < |l| ==> l[i] != l[j])
  }

  /** `list(emails_set)`: the elements of the set, each once, in an order left open. */
  method SetToList(s: set<string>) returns (l: seq<string>)
    ensures ListsOnce(l, s)
  {
    l := [];
    var rest := s;
    while rest != {}
      invariant forall x :: x in s <==> x in l || x in rest
      invariant forall x :: x in l ==> x !in rest
      invariant forall i, j :: 0 <= i < j < |l| ==> l[i] != l[j]
      decreases |rest|
    {
      var x :| x in rest;
      l := l + [x];
      rest := rest - {x};
    }
  }

  /** The output dict: every publisher, with its set of emails turned into a list. */
  method Serializable(publishersEmails: map<Key, set<string>>) returns (out: map<Key, seq<string>>)
    ensures out.Keys == publishersEmails.Keys
    ensures forall k :: k in out ==> ListsOnce(out[k], publishersEmails[k])
  {
    out := map[];
    var keys := publishersEmails.Keys;
    while keys != {}
      invariant keys <= publishersEmails.Keys
      invariant out.Keys == publishersEmails.Keys - keys
      invariant forall k :: k in out ==> ListsOnce(out[k], publishersEmails[k])
      decreases |keys|
    {
      var k :| k in keys;
      var emails := SetToList(publishersEmails[k]);
      out := out[k := emails];
      keys := keys - {k};
    }
  }

  /** What `extract_emails` ends with, once the messages file is read. */
  datatype HarvestOutcome =
    | NotAList                                  // the file is not a JSON array: error, nothing written
    | Harvested(emails: map<Key, seq<string>>)  // the contents of the output JSON file

  /** `extract_emails` given the parsed messages file. */
  method HarvestEmails(messages: Json) returns (out: HarvestOutcome)
    requires messages.JArr? ==> Harvestable(messages.items)
    ensures out.NotAList? <==> !messages.JArr?
    ensures out.Harvested? ==> out.emails.Keys == Aggregate(messages.items).Keys
    ensures out.Harvested? ==> forall k :: k in out.emails ==> ListsOnce(out.emails[k], Aggregate(messages.items)[k])
  {
    if !messages.JArr? {
      return NotAList;
    }
    var publishersEmails := ExtractEmails(messages.items);
    var serializableDict := Serializable(publishersEmails);
    out := Harvested(serializableDict);
  }
}
