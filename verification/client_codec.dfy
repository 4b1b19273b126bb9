/** The client's view of the contract's text layouts
    (frontend/src/utils/contract.ts): the decoders applied to what the
    read-only calls return and the encoder applied before `setSpamList`,
    with their round trips against the contract's encoders. */
module ClientCodec {
  import opened Wrappers
  import opened JsText
  import Numerals
  import C = MailContract

  // ---------- Comma-joined lists ----------

  /** The decoding shared by `getInbox`, `getSent` and `getSpamList`: ""
      is the empty list; otherwise the text is split on ',' and the blank
      pieces are dropped. Kept pieces are not trimmed. */
  function DecodeList(s: string): (items: seq<string>)
    ensures s == "" ==> items == []
  {
    if s == "" then [] else KeepNonBlank(Split(s, ','))
  }

  /** The decoded items are exactly the non-blank pieces between commas,
      untrimmed. */
  lemma DecodeListItems(s: string)
    ensures forall x :: x in DecodeList(s) <==> x in Split(s, ',') && !IsBlank(x)
    ensures forall i :: 0 <= i < |DecodeList(s)| ==> ListItem(DecodeList(s)[i])
  {
    var items := DecodeList(s);
    if s != "" {
      forall i | 0 <= i < |items|
        ensures ListItem(items[i])
      {
        assert items[i] in Split(s, ',');
      }
    }
  }

  /** `setSpamList` on the client sends the list joined with ','. */
  function EncodeList(items: seq<string>): string {
    Join(items, ',')
  }

  /** An element that a comma-joined list carries intact. */
  predicate ListItem(x: string) {
    ',' !in x && !IsBlank(x)
  }

  /** Appending an id on the contract side appends it on the client side. */
  lemma DecodeAppend(list: string, id: string)
    requires ListItem(id)
    ensures DecodeList(C.AppendId(list, id)) == DecodeList(list) + [id]
  {
    SplitWithoutSeparator(id, ',');
    assert id != "";
    if list != "" {
      SplitAroundSeparator(list, id, ',');
      KeepNonBlankConcat(Split(list, ','), [id]);
    }
  }

  /** The list the contract builds by appending `ids` one after another. */
  function AppendAll(list: string, ids: seq<string>): string
    decreases |ids|
  {
    if |ids| == 0 then list else AppendAll(C.AppendId(list, ids[0]), ids[1..])
  }

  /** Every element is a `ListItem`. */
  predicate AllListItems(ids: seq<string>)
    decreases |ids|
  {
    |ids| == 0 || (ListItem(ids[0]) && AllListItems(ids[1..]))
  }

  /** Decoding a list built by repeated appends gives back exactly the
      appended ids, in order, duplicates kept. */
  lemma {:induction false} DecodeAppendAll(list: string, ids: seq<string>)
    requires AllListItems(ids)
    ensures DecodeList(AppendAll(list, ids)) == DecodeList(list) + ids
    decreases |ids|
  {
    if |ids| == 0 {
      assert DecodeList(list) + ids == DecodeList(list);
    } else {
      var next := C.AppendId(list, ids[0]);
      var before := DecodeList(list);
      assert DecodeList(next) == before + [ids[0]] by {
        DecodeAppend(list, ids[0]);
      }
      assert DecodeList(AppendAll(next, ids[1..])) == DecodeList(next) + ids[1..] by {
        DecodeAppendAll(next, ids[1..]);
      }
      assert AppendAll(list, ids) == AppendAll(next, ids[1..]);
      Reassociate(before, ids);
    }
  }

  lemma Reassociate(d: seq<string>, ids: seq<string>)
    requires |ids| > 0
    ensures (d + [ids[0]]) + ids[1..] == d + ids
  {
  }

  /** A list of non-blank, comma-free items survives `join(',')` then the
      split-and-filter decoding. */
  lemma ListRoundTrip(items: seq<string>)
    requires forall i :: 0 <= i < |items| ==> ListItem(items[i])
    ensures DecodeList(EncodeList(items)) == items
  {
    if |items| > 0 {
      SplitJoin(items, ',');
      KeepNonBlankKeepsAll(items);
      assert items[0] != "";
      assert EncodeList(items) != "" by {
        JoinStartsWith(items, ',');
      }
    }
  }

  lemma JoinStartsWith(items: seq<string>, sep: char)
    requires |items| > 0
    ensures items[0] <= Join(items, sep)
  {
  }

  // ---------- Message records ----------

  /** A field of a destructured split: beyond the end of the array it is
      `undefined`. */
  function Field(parts: seq<string>, i: nat): Option<string> {
    if i < |parts| then Some(parts[i]) else None
  }

  datatype MessageView = MessageView(
    from: Option<string>, to: Option<string>, subject: Option<string>,
    bodyRef: Option<string>, timestamp: Option<string>, isEncrypted: Option<string>)

  /** `getMessage` on the client: "" is `null`; otherwise the record is split
      on '|' and its first six pieces are taken. */
  function DecodeMessage(s: string): (m: Option<MessageView>)
    ensures m.None? <==> s == ""
  {
    if s == "" then None
    else
      var parts := Split(s, '|');
      Some(MessageView(Field(parts, 0), Field(parts, 1), Field(parts, 2),
                       Field(parts, 3), Field(parts, 4), Field(parts, 5)))
  }

  /** A record the contract stores decodes to its six fields exactly,
      provided no field holds a '|'. */
  lemma MessageRoundTrip(from: string, to: string, subject: string, bodyRef: string,
                         timestamp: string, isEncrypted: string)
    requires '|' !in from && '|' !in to && '|' !in subject
    requires '|' !in bodyRef && '|' !in timestamp && '|' !in isEncrypted
    ensures DecodeMessage(C.EncodeRecord(from, to, subject, bodyRef, timestamp, isEncrypted))
            == Some(MessageView(Some(from), Some(to), Some(subject), Some(bodyRef),
                                Some(timestamp), Some(isEncrypted)))
  {
    var fields := [from, to, subject, bodyRef, timestamp, isEncrypted];
    assert fields[..1] + [to] == fields[..2];
    assert fields[..2] + [subject] == fields[..3];
    assert fields[..3] + [bodyRef] == fields[..4];
    assert fields[..4] + [timestamp] == fields[..5];
    assert fields[..5] + [isEncrypted] == fields;
    JoinSnoc(fields[..1], to, '|');
    JoinSnoc(fields[..2], subject, '|');
    JoinSnoc(fields[..3], bodyRef, '|');
    JoinSnoc(fields[..4], timestamp, '|');
    JoinSnoc(fields[..5], isEncrypted, '|');
    SplitJoin(fields, '|');
  }

  // ---------- Mailbox entries ----------

  /** Whether piece `i` of a split is exactly "1"; a missing piece is
      `undefined`, which is not. */
  predicate IsOne(parts: seq<string>, i: nat) {
    i < |parts| && parts[i] == "1"
  }

  /** `getInboxEntry` on the client: "" stands for "0|0|0"; each flag is
      set exactly when its piece is "1". */
  function DecodeEntry(s: string): (f: C.Flags)
    ensures s == "" ==> f == C.Unflagged
    ensures s != "" ==>
              && (f.read <==> Split(s, '|')[0] == "1")
              && (f.archived <==> IsOne(Split(s, '|'), 1))
              && (f.spam <==> IsOne(Split(s, '|'), 2))
  {
    var parts := Split(if s == "" then "0|0|0" else s, '|');
    assert s == "" ==> parts == ["0", "0", "0"] by {
      C.JoinTriple("0", "0", "0");
      assert "0" + "|" + "0" + "|" + "0" == "0|0|0";
      SplitJoin(["0", "0", "0"], '|');
    }
    C.Flags(IsOne(parts, 0), IsOne(parts, 1), IsOne(parts, 2))
  }

  /** Every flag triple the contract stores decodes to itself. */
  lemma EntryRoundTrip(f: C.Flags)
    ensures DecodeEntry(C.EncodeFlags(f)) == f
  {
    var bits := [C.Bit(f.read), C.Bit(f.archived), C.Bit(f.spam)];
    C.JoinTriple(bits[0], bits[1], bits[2]);
    assert bits == [bits[0], bits[1], bits[2]];
    SplitJoin(bits, '|');
  }

  // ---------- Registry ----------

  /** The alias the client's `registerEmail` reports back. */
  function RegisteredAlias(username: string): string {
    username + "@demailx"
  }

  /** `emailExists` on the client: true exactly when the contract said "1". */
  function DecodeExists(s: string): bool {
    s == "1"
  }

  // ---------- Against the contract ----------

  /** The alias the client reports is the alias the contract registered. */
  lemma ClientAliasMatchesContract(s: C.State, caller: string, username: string)
    requires C.RegisterEmail(s, caller, username).Success?
    ensures C.RegisterEmail(s, caller, username).value.output == RegisteredAlias(username)
    ensures C.GetEmailByAddress(C.RegisterEmail(s, caller, username).value.state, caller)
            == RegisteredAlias(username)
  {
  }

  /** The client sees an alias as existing exactly when an address is bound
      to it. */
  lemma ExistsMeansBound(s: C.State, email: string)
    ensures DecodeExists(C.EmailExists(s, email)) <==> C.GetAddressByEmail(s, email) != ""
  {
  }

  /** After `sendMessage`, the decoded sent list of the sender and inbox of
      the recipient each end with the delivered id, and the decoded entry
      is all-clear. */
  lemma DeliveryAsSeenByClient(s: C.State, caller: string, to: string, id: string)
    requires ListItem(id)
    ensures var t := C.SendMessage(s, caller, to, id).value.state;
            && DecodeList(C.GetSent(t, caller)) == DecodeList(C.GetSent(s, caller)) + [id]
            && DecodeList(C.GetInbox(t, to)) == DecodeList(C.GetInbox(s, to)) + [id]
            && DecodeEntry(C.GetInboxEntry(t, to, id)) == C.Unflagged
  {
    DecodeAppend(C.GetSent(s, caller), id);
    DecodeAppend(C.GetInbox(s, to), id);
    EntryRoundTrip(C.Unflagged);
  }

  /** The client's decoded entry is the stored flags, or all-clear when
      nothing was delivered. */
  lemma EntryAsSeenByClient(s: C.State, address: string, id: string)
    ensures DecodeEntry(C.GetInboxEntry(s, address, id)) == C.EntryOf(s, address, id).GetOr(C.Unflagged)
  {
    EntryRoundTrip(C.EntryOf(s, address, id).GetOr(C.Unflagged));
  }

  /** A created message read back through the client shows the six values
      it was created with, provided none holds a '|'. */
  lemma CreatedMessageAsSeenByClient(s: C.State, from: string, to: string, subject: string,
                                     bodyRef: string, isEncrypted: string, timestamp: nat)
    requires '|' !in from && '|' !in to && '|' !in subject
    requires '|' !in bodyRef && '|' !in isEncrypted
    ensures var r := C.CreateMessage(s, from, to, subject, bodyRef, isEncrypted, timestamp).value;
            DecodeMessage(C.GetMessage(r.state, r.output))
            == Some(MessageView(Some(from), Some(to), Some(subject), Some(bodyRef),
                                Some(Numerals.Decimal(timestamp)), Some(isEncrypted)))
  {
    var ts := Numerals.Decimal(timestamp);
    Numerals.NoOtherChar(ts, '|');
    MessageRoundTrip(from, to, subject, bodyRef, ts, isEncrypted);
  }

  /** A spam list the client sets is the list it reads back. */
  lemma SpamListAsSeenByClient(s: C.State, caller: string, items: seq<string>)
    requires forall i :: 0 <= i < |items| ==> ListItem(items[i])
    ensures var t := C.SetSpamList(s, caller, EncodeList(items)).value.state;
            DecodeList(C.GetSpamList(t, caller)) == items
  {
    ListRoundTrip(items);
  }
}
