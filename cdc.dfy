/**
 * Index maintenance: the changefeed webhook walks its payload and, for each
 * entry with an `after` image, re-tokenizes the name and overwrites that
 * row's `grams` (`UPDATE teams SET grams = ... WHERE id = pk`).
 */
module Cdc {
  import opened Schema
  import opened NGrams

  /** The `after` image of a changed row, as far as the webhook reads it. */
  datatype After = After(id: Id, name: string)

  /** One entry of the payload; `after` is `None` when the row was deleted. */
  datatype Entry = Entry(after: Option<After>)

  /** `index_string(pk, content)` on a table value: a missing row stays missing. */
  function IndexRow(t: Table, pk: Id, content: string): (t': Table)
    ensures t'.Keys == t.Keys
    ensures pk in t ==> t'[pk] == Row(t[pk].name, Some(Tokenize(content)))
    ensures forall id :: id in t && id != pk ==> t'[id] == t[id]
  {
    if pk in t then t[pk := t[pk].(grams := Some(Tokenize(content)))] else t
  }

  /** One iteration of the webhook loop. */
  function ApplyEntry(t: Table, e: Entry): (t': Table)
    ensures t'.Keys == t.Keys
  {
    match e.after
    case None => t
    case Some(a) => IndexRow(t, a.id, a.name)
  }

  /** The whole payload, entries applied in order. */
  function ApplyPayload(t: Table, payload: seq<Entry>): (t': Table)
    ensures t'.Keys == t.Keys
  {
    if payload == [] then t
    else ApplyEntry(ApplyPayload(t, payload[..|payload| - 1]), payload[|payload| - 1])
  }

  /** The name in the last entry of `payload` that targets `id`, if any. */
  function LastName(payload: seq<Entry>, id: Id): (r: Option<string>)
    ensures r.Some? <==> exists i :: 0 <= i < |payload| && payload[i].after.Some? && payload[i].after.value.id == id
  {
    if payload == [] then None
    else
      var e := payload[|payload| - 1];
      if e.after.Some? && e.after.value.id == id then Some(e.after.value.name)
      else
        var r := LastName(payload[..|payload| - 1], id);
        assert forall i :: 0 <= i < |payload| - 1 ==> payload[..|payload| - 1][i] == payload[i];
        r
  }

  /**
   * Row by row, the table after a payload: rows are neither added nor
   * removed, and a row's grams are the tokens of the last name the payload
   * gives for it, or unchanged when no entry names it.
   */
  lemma {:induction false} ApplyPayloadPointwise(t: Table, payload: seq<Entry>)
    ensures forall id :: id in t ==>
              ApplyPayload(t, payload)[id] ==
                match LastName(payload, id)
                case None => t[id]
                case Some(name) => Row(t[id].name, Some(Tokenize(name)))
  {
    if payload != [] {
      ApplyPayloadPointwise(t, payload[..|payload| - 1]);
    }
  }

  /** Redelivering a payload leaves the table as one delivery did. */
  lemma {:induction false} ApplyPayloadIdempotent(t: Table, payload: seq<Entry>)
    ensures ApplyPayload(ApplyPayload(t, payload), payload) == ApplyPayload(t, payload)
  {
    var once := ApplyPayload(t, payload);
    ApplyPayloadPointwise(t, payload);
    ApplyPayloadPointwise(once, payload);
  }

  /** Entries without an `after` image change nothing. */
  lemma {:induction false} DeletesChangeNothing(t: Table, payload: seq<Entry>)
    requires forall i :: 0 <= i < |payload| ==> payload[i].after.None?
    ensures ApplyPayload(t, payload) == t
  {
    ApplyPayloadPointwise(t, payload);
  }

  /** Only rows the payload names can change, and only in their grams. */
  lemma {:induction false} PayloadFrame(t: Table, payload: seq<Entry>, id: Id)
    requires id in t
    ensures ApplyPayload(t, payload)[id].name == t[id].name
    ensures (forall i :: 0 <= i < |payload| ==> payload[i].after.None? || payload[i].after.value.id != id) ==>
              ApplyPayload(t, payload)[id] == t[id]
  {
    ApplyPayloadPointwise(t, payload);
  }

  /** An entry carrying the row's current name leaves the row indexed: its grams are its name's tokens. */
  lemma EntrySyncsRow(t: Table, a: After)
    requires a.id in t && t[a.id].name == a.name
    ensures var t' := ApplyEntry(t, Entry(Some(a)));
            t'[a.id].grams == Some(Tokenize(t'[a.id].name))
  {
  }

  /** The `teams` table as the webhook sees it. */
  class Teams {
    var rows: Table

    constructor (rows0: Table)
      ensures rows == rows0
    {
      rows := rows0;
    }

    /** `index_string(pk, content)`. */
    method IndexString(pk: Id, content: string)
      modifies this
      ensures rows == IndexRow(old(rows), pk, content)
    {
      var ng := Tokenize(content);
      if pk in rows {
        rows := rows[pk := rows[pk].(grams := Some(ng))];
      }
    }

    /** `cdc_webhook()`: the loop over `obj["payload"]`. */
    method CdcWebhook(payload: seq<Entry>)
      modifies this
      ensures rows == ApplyPayload(old(rows), payload)
    {
      var i := 0;
      while i < |payload|
        invariant 0 <= i <= |payload|
        invariant rows == ApplyPayload(old(rows), payload[..i])
      {
        var o := payload[i];
        if o.after.None? {
          // nothing to be done for a deleted row
        } else {
          IndexString(o.after.value.id, o.after.value.name);
        }
        assert payload[..i + 1][..i] == payload[..i];
        i := i + 1;
      }
      assert payload[..i] == payload;
    }
  }
}
