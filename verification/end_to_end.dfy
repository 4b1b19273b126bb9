/** Whole-system scenarios: the contract driven the way the client drives
    it, read back through the client's decoders. */
module EndToEnd {
  import opened Wrappers
  import opened JsText
  import C = MailContract
  import Client = ClientCodec
  import Obfuscation
  import Numerals

  /** Two wallets register `alice` and `bob`; Alice creates a message to Bob
      and delivers it. Bob's inbox and Alice's sent list then hold exactly
      that id, the message reads back as coming from Alice, and Bob's entry
      is all-clear. */
  lemma AliceMailsBob(alice: string, bob: string, subject: string, body: string, timestamp: nat)
    requires C.ValidAddress(alice) && C.ValidAddress(bob) && alice != bob
    requires '|' !in alice && '|' !in bob && '|' !in subject && '|' !in body
    ensures var s0 := C.Deploy();
            var r1 := C.RegisterEmail(s0, alice, "alice");
            r1.Success? &&
            var r2 := C.RegisterEmail(r1.value.state, bob, "bob");
            r2.Success? &&
            var r3 := C.CreateMessage(r2.value.state, alice, bob, subject, body, "0", timestamp).value;
            var id := r3.output;
            var s4 := C.SendMessage(r3.state, alice, bob, id).value.state;
            && Client.DecodeList(C.GetInbox(s4, bob)) == [id]
            && Client.DecodeList(C.GetSent(s4, alice)) == [id]
            && Client.DecodeMessage(C.GetMessage(s4, id)).Some?
            && Client.DecodeMessage(C.GetMessage(s4, id)).value.from == Some(alice)
            && Client.DecodeEntry(C.GetInboxEntry(s4, bob, id)) == C.Unflagged
  {
    var s0 := C.Deploy();
    var s1 := C.RegisterEmail(s0, alice, "alice").value.state;
    assert C.AliasFor("alice") != C.AliasFor("bob");
    var s2 := C.RegisterEmail(s1, bob, "bob").value.state;
    var r3 := C.CreateMessage(s2, alice, bob, subject, body, "0", timestamp).value;
    var id := r3.output;
    assert Numerals.AllDigits(id);
    Numerals.NoOtherChar(id, ',');
    assert !IsBlank(id) by {
      assert !IsWhitespace(id[0]);
    }
    Client.CreatedMessageAsSeenByClient(s2, alice, bob, subject, body, "0", timestamp);
    Client.DeliveryAsSeenByClient(r3.state, alice, bob, id);
  }

  /** A second wallet asking for a taken alias is refused; it stays
      unregistered and the first binding is untouched. */
  lemma TakenAliasLeavesBothUntouched(s: C.State, alice: string, bob: string)
    requires C.Invariant(s) && C.ValidAddress(alice) && alice != bob
    requires C.RegisterEmail(s, alice, "alice").Success?
    ensures var s1 := C.RegisterEmail(s, alice, "alice").value.state;
            && C.RegisterEmail(s1, bob, "alice").Failure?
            && C.GetAddressByEmail(s1, "alice@demailx") == alice
            && C.GetEmailByAddress(s1, alice) == "alice@demailx"
  {
    assert C.AliasFor("alice") == "alice@demailx";
    C.TakenAliasIsRefused(s, alice, bob, "alice");
  }

  /** Delivering, then marking as read, reads back as read and neither
      archived nor spam. */
  lemma DeliverThenRead(s: C.State, sender: string, owner: string, id: string)
    ensures var s1 := C.SendMessage(s, sender, owner, id).value.state;
            var s2 := C.MarkAsRead(s1, owner, id).value.state;
            Client.DecodeEntry(C.GetInboxEntry(s2, owner, id)) == C.Flags(true, false, false)
  {
    var s1 := C.SendMessage(s, sender, owner, id).value.state;
    var s2 := C.MarkAsRead(s1, owner, id).value.state;
    Client.EntryAsSeenByClient(s2, owner, id);
  }

  /** Delivering the same id twice lists it twice, whatever was flagged in
      between. */
  lemma RedeliveryDuplicates(s: C.State, sender: string, owner: string, id: string)
    requires Client.ListItem(id)
    ensures var s1 := C.SendMessage(s, sender, owner, id).value.state;
            var s2 := C.MarkAsSpam(s1, owner, id).value.state;
            var s3 := C.SendMessage(s2, sender, owner, id).value.state;
            Client.DecodeList(C.GetInbox(s3, owner)) == Client.DecodeList(C.GetInbox(s, owner)) + [id, id]
  {
    var s1 := C.SendMessage(s, sender, owner, id).value.state;
    var s2 := C.MarkAsSpam(s1, owner, id).value.state;
    var s3 := C.SendMessage(s2, sender, owner, id).value.state;
    InboxAcrossRedelivery(s, s1, s2, s3, sender, owner, id);
  }

  /** The steps of `RedeliveryDuplicates`, over named states. */
  lemma InboxAcrossRedelivery(s: C.State, s1: C.State, s2: C.State, s3: C.State,
                              sender: string, owner: string, id: string)
    requires Client.ListItem(id)
    requires s1 == C.SendMessage(s, sender, owner, id).value.state
    requires s2 == C.MarkAsSpam(s1, owner, id).value.state
    requires s3 == C.SendMessage(s2, sender, owner, id).value.state
    ensures Client.DecodeList(C.GetInbox(s3, owner)) == Client.DecodeList(C.GetInbox(s, owner)) + [id, id]
  {
    var before := Client.DecodeList(C.GetInbox(s, owner));
    var once := Client.DecodeList(C.GetInbox(s1, owner));
    var twice := Client.DecodeList(C.GetInbox(s3, owner));
    InboxAfterDelivery(s, sender, owner, id);
    assert once == before + [id];
    SpamLeavesInbox(s1, owner, id);
    InboxAfterDelivery(s2, sender, owner, id);
    assert twice == once + [id];
    SnocTwice(before, id);
  }

  lemma SnocTwice(xs: seq<string>, x: string)
    ensures xs + [x] + [x] == xs + [x, x]
  {
  }

  /** Marking as spam leaves the inbox list alone. */
  lemma SpamLeavesInbox(s: C.State, owner: string, id: string)
    ensures C.GetInbox(C.MarkAsSpam(s, owner, id).value.state, owner) == C.GetInbox(s, owner)
  {
  }

  /** One delivery adds one id to the owner's decoded inbox. */
  lemma InboxAfterDelivery(s: C.State, sender: string, owner: string, id: string)
    requires Client.ListItem(id)
    ensures Client.DecodeList(C.GetInbox(C.SendMessage(s, sender, owner, id).value.state, owner))
            == Client.DecodeList(C.GetInbox(s, owner)) + [id]
  {
    Client.DeliveryAsSeenByClient(s, sender, owner, id);
  }

  /** A flag raised on a delivered entry is cleared by delivering the same
      id again. */
  lemma RedeliveryClearsFlags(s: C.State, sender: string, owner: string, id: string)
    ensures var s1 := C.SendMessage(s, sender, owner, id).value.state;
            var s2 := C.MarkAsSpam(s1, owner, id).value.state;
            var s3 := C.SendMessage(s2, sender, owner, id).value.state;
            && Client.DecodeEntry(C.GetInboxEntry(s2, owner, id)) == C.Flags(false, false, true)
            && Client.DecodeEntry(C.GetInboxEntry(s3, owner, id)) == C.Unflagged
  {
    var s1 := C.SendMessage(s, sender, owner, id).value.state;
    var s2 := C.MarkAsSpam(s1, owner, id).value.state;
    var s3 := C.SendMessage(s2, sender, owner, id).value.state;
    assert C.EntryOf(s2, owner, id) == Some(C.Flags(false, false, true));
    Client.EntryAsSeenByClient(s2, owner, id);
    Client.EntryAsSeenByClient(s3, owner, id);
  }

  /** An obfuscated body stored with a message reads back, decoded and
      decrypted with the same key, as the original bytes. */
  lemma EncryptedBodyRoundTrip(s: C.State, from: string, to: string, subject: string,
                               message: seq<Obfuscation.byte>, key: string, storedKey: string,
                               timestamp: nat)
    requires '|' !in from && '|' !in to && '|' !in subject
    ensures var body := Obfuscation.EncryptMessage(message, key, storedKey);
            var r := C.CreateMessage(s, from, to, subject, body, "1", timestamp).value;
            var view := Client.DecodeMessage(C.GetMessage(r.state, r.output));
            && view.Some? && view.value.bodyRef.Some?
            && view.value.isEncrypted == Some("1")
            && Obfuscation.DecryptMessage(view.value.bodyRef.value, key, storedKey) == message
  {
    var body := Obfuscation.EncryptMessage(message, key, storedKey);
    Obfuscation.CiphertextHasNoSeparator(message, key, storedKey);
    Client.CreatedMessageAsSeenByClient(s, from, to, subject, body, "1", timestamp);
    Obfuscation.DecryptEncrypt(message, key, storedKey);
  }
}
