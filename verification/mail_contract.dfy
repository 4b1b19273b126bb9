/** The on-chain DeMailX contract (contract/assembly/contracts/main.ts) as
    pure state transitions.

    The contract keeps everything in one string key/value store whose
    missing keys read as "". Each key prefix is one map here (`Get` reads a
    missing key as ""), which assumes that addresses hold no '_' and that no
    key of one prefix can be spelled as a key of another (`inbox_` against
    `inbox_entry_`). Every exported function runs to completion: it either
    commits its writes or fails an `assert` and reverts, which is a
    `Failure` carrying no state. */
module MailContract {
  import opened Wrappers
  import opened JsText
  import opened Numerals

  /** Suffix that turns a username into an alias. */
  const Domain: string := "@demailx"

  /** Retention defaults returned while no value is stored. */
  const DefaultInboxDays: string := "60"
  const DefaultSpamDays: string := "7"

  /** The three mailbox flags, in their stored order `read|archived|spam`. */
  datatype FlagField = IsRead | IsArchived | IsSpam

  datatype Flags = Flags(read: bool, archived: bool, spam: bool) {

    function Get(field: FlagField): bool {
      match field
      case IsRead => read
      case IsArchived => archived
      case IsSpam => spam
    }

    /** These flags with `field` raised and the other two untouched. */
    function With(field: FlagField): (f: Flags)
      ensures f.Get(field)
      ensures forall g :: g != field ==> f.Get(g) == Get(g)
    {
      match field
      case IsRead => this.(read := true)
      case IsArchived => this.(archived := true)
      case IsSpam => this.(spam := true)
    }
  }

  /** The flags of a freshly delivered message. */
  const Unflagged: Flags := Flags(false, false, false)

  function Bit(b: bool): string {
    if b then "1" else "0"
  }

  /** Position of a flag in the stored triple. */
  function FieldIndex(field: FlagField): nat {
    match field
    case IsRead => 0
    case IsArchived => 1
    case IsSpam => 2
  }

  /** Stored text of a mailbox entry: "0"/"1" for read, archived, spam. */
  function EncodeFlags(f: Flags): string {
    Bit(f.read) + "|" + Bit(f.archived) + "|" + Bit(f.spam)
  }

  /** What a flag setter does to the stored text: split it on '|', put "1"
      at `index`, join with '|'. Assigning past the end of an AssemblyScript
      array grows it with null elements in between, which `join` renders as
      "". */
  function SetFieldInText(text: string, index: nat): string {
    var parts := Split(text, '|');
    var updated :=
      if index < |parts| then parts[index := "1"]
      else parts + seq(index - |parts|, _ => "") + ["1"];
    Join(updated, '|')
  }

  /** On a stored triple, the text edit of a flag setter is exactly raising
      that flag, so the model may keep entries as `Flags`. */
  lemma SetFieldInEncodedText(f: Flags, field: FlagField)
    ensures SetFieldInText(EncodeFlags(f), FieldIndex(field)) == EncodeFlags(f.With(field))
  {
    var bits := [Bit(f.read), Bit(f.archived), Bit(f.spam)];
    JoinTriple(bits[0], bits[1], bits[2]);
    assert bits == [bits[0], bits[1], bits[2]];
    SplitJoin(bits, '|');
    var updated := bits[FieldIndex(field) := "1"];
    JoinTriple(updated[0], updated[1], updated[2]);
    assert updated == [updated[0], updated[1], updated[2]];
  }

  /** The three-piece join a flag setter performs, spelled out. */
  lemma JoinTriple(a: string, b: string, c: string)
    ensures Join([a, b, c], '|') == a + "|" + b + "|" + c
  {
    JoinSnoc([a], b, '|');
    JoinSnoc([a, b], c, '|');
    assert [a] + [b] == [a, b];
    assert [a, b] + [c] == [a, b, c];
  }

  /** The contract's storage, one map per key prefix. */
  datatype State = State(
    emailByAddr: map<string, string>,          // email_by_addr_<address>
    addrByEmail: map<string, string>,          // addr_by_email_<alias>
    emailCount: Option<nat>,                   // email_count
    nextMsgId: Option<nat>,                    // next_msg_id
    messages: map<string, string>,             // msg_<id>
    sent: map<string, string>,                 // sent_<address>
    inbox: map<string, string>,                // inbox_<address>
    entries: map<(string, string), Flags>,     // inbox_entry_<address>_<id>
    spamList: map<string, string>,             // spam_list_<address>
    maxInboxDays: map<string, string>,         // max_inbox_days_<address>
    maxSpamDays: map<string, string>)          // max_spam_days_<address>

  datatype Error =
    | EmailAlreadyRegistered   // "Wallet already has an email registered"
    | EmailTaken               // "Email already taken"

  /** A committed call: the new storage and the returned text ("" for the
      functions that return nothing). */
  datatype Reply = Reply(state: State, output: string)

  /** `Storage.get`: a missing key reads as "". */
  function Get(m: map<string, string>, key: string): string {
    if key in m then m[key] else ""
  }

  /** The registration counter; an unset counter counts as 0. */
  function EmailCount(s: State): nat {
    s.emailCount.GetOr(0)
  }

  /** The id the next `createMessage` hands out; an unset counter reads as 1. */
  function CurrentId(s: State): nat {
    s.nextMsgId.GetOr(1)
  }

  /** The mailbox entry of `owner` for message `id`, if it was delivered. */
  function EntryOf(s: State, owner: string, id: string): Option<Flags> {
    if (owner, id) in s.entries then Some(s.entries[(owner, id)]) else None
  }

  // ---------- Which parts of the storage a call may touch ----------

  predicate SameRegistry(s: State, t: State) {
    s.emailByAddr == t.emailByAddr && s.addrByEmail == t.addrByEmail && s.emailCount == t.emailCount
  }

  predicate SameLedger(s: State, t: State) {
    s.nextMsgId == t.nextMsgId && s.messages == t.messages
  }

  predicate SameMailbox(s: State, t: State) {
    s.sent == t.sent && s.inbox == t.inbox && s.entries == t.entries
  }

  predicate SamePreferences(s: State, t: State) {
    s.spamList == t.spamList && s.maxInboxDays == t.maxInboxDays && s.maxSpamDays == t.maxSpamDays
  }

  // ---------- Invariants ----------

  /** `fwd` and `rev` are exact inverses of each other, with no "" value
      (which would read as unset). */
  ghost predicate Inverse(fwd: map<string, string>, rev: map<string, string>) {
    && (forall a :: a in fwd ==> fwd[a] != "" && fwd[a] in rev && rev[fwd[a]] == a)
    && (forall e :: e in rev ==> rev[e] != "" && rev[e] in fwd && fwd[rev[e]] == e)
  }

  /** Binding a fresh address to a fresh alias keeps two inverse maps
      inverse. */
  lemma BindKeepsInverse(fwd: map<string, string>, rev: map<string, string>, addr: string, alias: string)
    requires Inverse(fwd, rev)
    requires addr != "" && alias != ""
    requires addr !in fwd && alias !in rev
    ensures Inverse(fwd[addr := alias], rev[alias := addr])
  {
    var fwd', rev' := fwd[addr := alias], rev[alias := addr];
    forall a | a in fwd'
      ensures fwd'[a] != "" && fwd'[a] in rev' && rev'[fwd'[a]] == a
    {
      if a != addr {
        assert fwd[a] in rev && fwd[a] != alias;
      }
    }
    forall e | e in rev'
      ensures rev'[e] != "" && rev'[e] in fwd' && fwd'[rev'[e]] == e
    {
      if e != alias {
        assert rev[e] in fwd && rev[e] != addr;
      }
    }
  }

  ghost predicate RegistryConsistent(s: State) {
    Inverse(s.emailByAddr, s.addrByEmail)
  }

  /** Every stored message sits under the decimal text of an id already
      handed out, and ids start at 1. */
  ghost predicate LedgerConsistent(s: State) {
    && CurrentId(s) >= 1
    && forall k :: k in s.messages ==> AllDigits(k) && 1 <= DigitsValue(k) < CurrentId(s)
  }

  ghost predicate Invariant(s: State) {
    && RegistryConsistent(s)
    && EmailCount(s) == |s.emailByAddr|
    && LedgerConsistent(s)
  }

  /** A caller identity: `Context.caller()` is never the empty string. */
  predicate ValidAddress(a: string) {
    a != ""
  }

  // ---------- constructor ----------

  /** The storage right after deployment: the counters written, nothing
      registered, no message, no mailbox, no preference. */
  function Deploy(): (s: State)
    ensures EmailCount(s) == 0 && CurrentId(s) == 1
    ensures Invariant(s)
  {
    State(map[], map[], Some(0), Some(1), map[], map[], map[], map[], map[], map[], map[])
  }

  // ---------- Email registry ----------

  /** The alias a username registers. */
  function AliasFor(username: string): string {
    username + Domain
  }

  function GetEmailByAddress(s: State, address: string): string {
    Get(s.emailByAddr, address)
  }

  function GetAddressByEmail(s: State, email: string): string {
    Get(s.addrByEmail, email)
  }

  function EmailExists(s: State, email: string): (r: string)
    ensures r == "1" || r == "0"
  {
    if GetAddressByEmail(s, email) != "" then "1" else "0"
  }

  /** `registerEmail`: binds the caller to `username@demailx` in both
      directions and counts the registration, unless the caller already has
      an alias or the alias is already bound; both checks come before any
      write. */
  function RegisterEmail(s: State, caller: string, username: string): (r: Result<Reply, Error>)
    ensures GetEmailByAddress(s, caller) != "" ==> r == Failure(EmailAlreadyRegistered)
    ensures GetEmailByAddress(s, caller) == "" && EmailExists(s, AliasFor(username)) == "1" ==>
              r == Failure(EmailTaken)
    ensures r.Success? <==> GetEmailByAddress(s, caller) == "" && EmailExists(s, AliasFor(username)) == "0"
    ensures r.Success? ==>
              var t := r.value.state;
              && r.value.output == AliasFor(username)
              && GetEmailByAddress(t, caller) == AliasFor(username)
              && GetAddressByEmail(t, AliasFor(username)) == caller
              && (forall a :: a != caller ==> GetEmailByAddress(t, a) == GetEmailByAddress(s, a))
              && (forall e :: e != AliasFor(username) ==> GetAddressByEmail(t, e) == GetAddressByEmail(s, e))
              && EmailCount(t) == EmailCount(s) + 1
              && SameLedger(s, t) && SameMailbox(s, t) && SamePreferences(s, t)
  {
    var emailId := AliasFor(username);
    if Get(s.emailByAddr, caller) != "" then Failure(EmailAlreadyRegistered)
    else if Get(s.addrByEmail, emailId) != "" then Failure(EmailTaken)
    else
      var t := s.(emailByAddr := s.emailByAddr[caller := emailId],
                  addrByEmail := s.addrByEmail[emailId := caller],
                  emailCount := Some(EmailCount(s) + 1));
      Success(Reply(t, emailId))
  }

  /** A successful registration by a real caller keeps the alias maps
      inverse to each other and the counter equal to the number of
      registered addresses. */
  lemma RegisterPreservesInvariant(s: State, caller: string, username: string)
    requires Invariant(s) && ValidAddress(caller)
    ensures var r := RegisterEmail(s, caller, username);
            r.Success? ==> Invariant(r.value.state)
  {
    var alias := AliasFor(username);
    if Get(s.emailByAddr, caller) == "" && Get(s.addrByEmail, alias) == "" {
      var t := s.(emailByAddr := s.emailByAddr[caller := alias],
                  addrByEmail := s.addrByEmail[alias := caller],
                  emailCount := Some(EmailCount(s) + 1));
      assert RegisterEmail(s, caller, username) == Success(Reply(t, alias));
      BindKeepsInverse(s.emailByAddr, s.addrByEmail, caller, alias);
      MapAddSize(s.emailByAddr, caller, alias);
      assert LedgerConsistent(t);
    }
  }

  lemma MapAddSize(m: map<string, string>, k: string, v: string)
    requires k !in m
    ensures |m[k := v]| == |m| + 1
  {
    assert m[k := v].Keys == m.Keys + {k};
  }

  /** Once an address holds an alias, every further registration by it
      fails, whatever the username. */
  lemma SecondRegistrationFails(s: State, caller: string, first: string, second: string)
    requires RegisterEmail(s, caller, first).Success?
    ensures RegisterEmail(RegisterEmail(s, caller, first).value.state, caller, second)
            == Failure(EmailAlreadyRegistered)
  {
  }

  /** An alias bound to one address can never be taken by another: the
      registration fails and, failing, commits nothing. */
  lemma TakenAliasIsRefused(s: State, owner: string, other: string, username: string)
    requires ValidAddress(owner)
    requires RegisterEmail(s, owner, username).Success?
    requires other != owner
    ensures var t := RegisterEmail(s, owner, username).value.state;
            RegisterEmail(t, other, username).Failure?
  {
  }

  // ---------- Message store ----------

  /** The stored record of a message: six fields joined by '|'. */
  function EncodeRecord(from: string, to: string, subject: string, bodyRef: string,
                        timestamp: string, isEncrypted: string): string
  {
    from + "|" + to + "|" + subject + "|" + bodyRef + "|" + timestamp + "|" + isEncrypted
  }

  function GetMessage(s: State, id: string): string {
    Get(s.messages, id)
  }

  /** `createMessage`: takes the current id, advances the counter by one and
      stores the record under that id. `from` and `to` are stored as the
      caller supplied them; `timestamp` is the block time as the runtime reports it. The id
      text is the canonical decimal of the counter (see
      `AllocateIdAsWritten` for how the deployed code renders it). */
  function CreateMessage(s: State, from: string, to: string, subject: string, bodyRef: string,
                         isEncrypted: string, timestamp: nat): (r: Result<Reply, Error>)
    ensures r.Success?
    ensures var t := r.value.state;
            && r.value.output == Decimal(CurrentId(s))
            && AllDigits(r.value.output) && DigitsValue(r.value.output) == CurrentId(s)
            && CurrentId(t) == CurrentId(s) + 1
            && GetMessage(t, r.value.output) == EncodeRecord(from, to, subject, bodyRef, Decimal(timestamp), isEncrypted)
            && (forall id :: id != r.value.output ==> GetMessage(t, id) == GetMessage(s, id))
            && SameRegistry(s, t) && SameMailbox(s, t) && SamePreferences(s, t)
  {
    var messageId := Decimal(CurrentId(s));
    DecimalRoundTrip(CurrentId(s));
    var record := EncodeRecord(from, to, subject, bodyRef, Decimal(timestamp), isEncrypted);
    var t := s.(nextMsgId := Some(CurrentId(s) + 1), messages := s.messages[messageId := record]);
    Success(Reply(t, messageId))
  }

  /** On a consistent store the id `createMessage` hands out is new: no
      message was stored under it, every earlier message keeps its record,
      and the store stays consistent. */
  lemma CreateMessageAllocatesFreshId(s: State, from: string, to: string, subject: string,
                                      bodyRef: string, isEncrypted: string, timestamp: nat)
    requires Invariant(s)
    ensures var r := CreateMessage(s, from, to, subject, bodyRef, isEncrypted, timestamp);
            && r.value.output !in s.messages
            && (forall id :: id in s.messages ==>
                  (id in r.value.state.messages && r.value.state.messages[id] == s.messages[id]))
            && Invariant(r.value.state)
  {
    var r := CreateMessage(s, from, to, subject, bodyRef, isEncrypted, timestamp);
    var id := r.value.output;
    assert AllDigits(id) && DigitsValue(id) == CurrentId(s);
    assert id !in s.messages;
    var t := r.value.state;
    forall k | k in t.messages
      ensures AllDigits(k) && 1 <= DigitsValue(k) < CurrentId(t)
    {
      if k != id {
        assert k in s.messages;
      }
    }
  }

  /** `createMessage`'s counter step as the deployed code computes it:
      AssemblyScript's `parseInt` returns an f64, so the successor is
      rendered as f64 text with a trailing ".0". The stored counter text is
      "" or a text this step or the constructor wrote, which starts with a
      non-zero digit; on such a text `parseInt` reads the leading digits.
      Returns the id handed out and the counter text stored back. */
  function AllocateIdAsWritten(stored: string): (r: (string, string))
    requires stored == "" || (IsDigit(stored[0]) && stored[0] != '0')
    ensures r.0 != "" && IsDigit(r.0[0]) && r.0[0] != '0'
    ensures r.1 != "" && IsDigit(r.1[0]) && r.1[0] != '0'
  {
    var messageId := if stored == "" then "1" else stored;
    var value := DigitsValue(LeadingDigits(messageId));
    assert LeadingDigits(messageId)[0] == messageId[0];
    assert value >= 1 by { LeadingValuePositive(messageId); }
    (messageId, IntegralF64Text(value + 1))
  }

  lemma LeadingValuePositive(s: string)
    requires s != "" && IsDigit(s[0]) && s[0] != '0'
    ensures DigitsValue(LeadingDigits(s)) >= 1
  {
    var p := LeadingDigits(s);
    assert p[0] == s[0];
    PositiveLeadDigit(p);
  }

  lemma {:induction false} PositiveLeadDigit(p: string)
    requires AllDigits(p) && p != "" && p[0] != '0'
    ensures DigitsValue(p) >= 1
    decreases |p|
  {
    if |p| > 1 {
      PositiveLeadDigit(p[..|p| - 1]);
    }
  }

  /** As written, the second message after deployment is filed under "2.0",
      and the digit capture the client applies to the creation event yields
      "2", a key under which nothing is stored. */
  lemma SecondIdAsWrittenIsNotDecimal()
    ensures var (first, stored1) := AllocateIdAsWritten("1");
            var (second, _) := AllocateIdAsWritten(stored1);
            && first == "1"
            && second == IntegralF64Text(2)
            && LeadingDigits(second) == Decimal(2)
            && LeadingDigits(second) != second
  {
    var (first, stored1) := AllocateIdAsWritten("1");
    assert LeadingDigits("1") == "1";
    assert DigitsValue("1") == 1;
    LeadingDigitsOfF64Text(2);
    var (second, _) := AllocateIdAsWritten(stored1);
    assert LeadingDigits(second) == Decimal(2);
    assert |second| == |Decimal(2)| + 2;
  }

  /** The as-written counter step on each text it can meet. An unset
      counter behaves as the constructor's "1". On the decimal text of `n`
      and on the f64 text "n.0" alike, the id handed out is the stored text
      itself and "(n+1).0" is stored back; the digit capture of "n.0" is a
      different text. */
  lemma AsWrittenStep(n: nat)
    requires n >= 1
    ensures AllocateIdAsWritten("") == AllocateIdAsWritten(Decimal(1))
    ensures AllocateIdAsWritten(Decimal(n)) == (Decimal(n), IntegralF64Text(n + 1))
    ensures AllocateIdAsWritten(IntegralF64Text(n)) == (IntegralF64Text(n), IntegralF64Text(n + 1))
    ensures LeadingDigits(IntegralF64Text(n)) == Decimal(n) != IntegralF64Text(n)
  {
    assert Decimal(1) == "1";
    LeadingDigitsOfDecimal(Decimal(n));
    LeadingDigitsOfF64Text(n);
    DecimalRoundTrip(n);
    assert |IntegralF64Text(n)| == |Decimal(n)| + 2;
  }

  /** With the canonical rendering the model uses, the client's digit
      capture recovers every id `createMessage` returns. */
  lemma CreatedIdSurvivesDigitCapture(s: State, from: string, to: string, subject: string,
                                      bodyRef: string, isEncrypted: string, timestamp: nat)
    ensures var id := CreateMessage(s, from, to, subject, bodyRef, isEncrypted, timestamp).value.output;
            LeadingDigits(id) == id && DigitsValue(id) == CurrentId(s)
  {
    LeadingDigitsOfDecimal(Decimal(CurrentId(s)));
  }

  // ---------- Inbox manager ----------

  /** One id appended to a stored comma-joined list. */
  function AppendId(list: string, id: string): string {
    if list == "" then id else list + "," + id
  }

  function GetInbox(s: State, address: string): string {
    Get(s.inbox, address)
  }

  function GetSent(s: State, address: string): string {
    Get(s.sent, address)
  }

  /** `sendMessage`: appends `id` to the caller's sent list and to the
      recipient's inbox and (re)sets the recipient's entry for `id` to
      all-clear. Whether the message exists or the recipient is registered
      is not checked; delivering the same id again appends it again and
      clears its flags. */
  function SendMessage(s: State, caller: string, to: string, id: string): (r: Result<Reply, Error>)
    ensures r.Success? && r.value.output == ""
    ensures var t := r.value.state;
            && GetSent(t, caller) == AppendId(GetSent(s, caller), id)
            && GetInbox(t, to) == AppendId(GetInbox(s, to), id)
            && (forall a :: a != caller ==> GetSent(t, a) == GetSent(s, a))
            && (forall a :: a != to ==> GetInbox(t, a) == GetInbox(s, a))
            && EntryOf(t, to, id) == Some(Unflagged)
            && (forall o, m :: (o, m) != (to, id) ==> EntryOf(t, o, m) == EntryOf(s, o, m))
            && SameRegistry(s, t) && SameLedger(s, t) && SamePreferences(s, t)
  {
    var sentList := AppendId(Get(s.sent, caller), id);
    var inboxList := AppendId(Get(s.inbox, to), id);
    var t := s.(sent := s.sent[caller := sentList],
                inbox := s.inbox[to := inboxList],
                entries := s.entries[(to, id) := Unflagged]);
    Success(Reply(t, ""))
  }

  /** The shared body of the three flag setters: raise `field` on the
      caller's own entry for `id`, or do nothing if there is none. */
  function SetFlag(s: State, caller: string, id: string, field: FlagField): (t: State)
    ensures EntryOf(s, caller, id).None? ==> t == s
    ensures EntryOf(s, caller, id).Some? ==>
              EntryOf(t, caller, id) == Some(EntryOf(s, caller, id).value.With(field))
    ensures forall o, m :: (o, m) != (caller, id) ==> EntryOf(t, o, m) == EntryOf(s, o, m)
    ensures SameRegistry(s, t) && SameLedger(s, t) && SamePreferences(s, t)
    ensures t.sent == s.sent && t.inbox == s.inbox
  {
    if (caller, id) in s.entries then
      s.(entries := s.entries[(caller, id) := s.entries[(caller, id)].With(field)])
    else s
  }

  /** Raising a flag twice is raising it once. */
  lemma SetFlagIdempotent(s: State, caller: string, id: string, field: FlagField)
    ensures SetFlag(SetFlag(s, caller, id, field), caller, id, field) == SetFlag(s, caller, id, field)
  {
    var t := SetFlag(s, caller, id, field);
    if (caller, id) in s.entries {
      assert t.entries[(caller, id)].With(field) == t.entries[(caller, id)];
      assert t.entries[(caller, id) := t.entries[(caller, id)].With(field)] == t.entries;
    }
  }

  /** `t` differs from `s` at most in the entry of `owner` for `id`. */
  ghost predicate OnlyEntryChanged(s: State, t: State, owner: string, id: string) {
    && (forall o, m :: (o, m) != (owner, id) ==> EntryOf(t, o, m) == EntryOf(s, o, m))
    && SameRegistry(s, t) && SameLedger(s, t) && SamePreferences(s, t)
    && t.sent == s.sent && t.inbox == s.inbox
  }

  /** `markAsRead`: sets the read flag (field 0) of the caller's entry, if
      any; the stored text is the old one with its first field set to "1". */
  function MarkAsRead(s: State, caller: string, id: string): (r: Result<Reply, Error>)
    ensures r.Success? && r.value.output == ""
    ensures var t := r.value.state;
            var e := EntryOf(s, caller, id);
            && (e.None? ==> t == s)
            && (e.Some? ==>
                  && EntryOf(t, caller, id) == Some(Flags(true, e.value.archived, e.value.spam))
                  && GetInboxEntry(t, caller, id) == SetFieldInText(GetInboxEntry(s, caller, id), 0))
            && OnlyEntryChanged(s, t, caller, id)
  {
    SetFieldInEncodedText(EntryOf(s, caller, id).GetOr(Unflagged), IsRead);
    Success(Reply(SetFlag(s, caller, id, IsRead), ""))
  }

  /** `markAsSpam`: sets the spam flag (field 2) of the caller's entry, if
      any; the stored text is the old one with its third field set to "1". */
  function MarkAsSpam(s: State, caller: string, id: string): (r: Result<Reply, Error>)
    ensures r.Success? && r.value.output == ""
    ensures var t := r.value.state;
            var e := EntryOf(s, caller, id);
            && (e.None? ==> t == s)
            && (e.Some? ==>
                  && EntryOf(t, caller, id) == Some(Flags(e.value.read, e.value.archived, true))
                  && GetInboxEntry(t, caller, id) == SetFieldInText(GetInboxEntry(s, caller, id), 2))
            && OnlyEntryChanged(s, t, caller, id)
  {
    SetFieldInEncodedText(EntryOf(s, caller, id).GetOr(Unflagged), IsSpam);
    Success(Reply(SetFlag(s, caller, id, IsSpam), ""))
  }

  /** `archiveMessage`: sets the archived flag (field 1) of the caller's
      entry, if any; the stored text is the old one with its second field
      set to "1". */
  function ArchiveMessage(s: State, caller: string, id: string): (r: Result<Reply, Error>)
    ensures r.Success? && r.value.output == ""
    ensures var t := r.value.state;
            var e := EntryOf(s, caller, id);
            && (e.None? ==> t == s)
            && (e.Some? ==>
                  && EntryOf(t, caller, id) == Some(Flags(e.value.read, true, e.value.spam))
                  && GetInboxEntry(t, caller, id) == SetFieldInText(GetInboxEntry(s, caller, id), 1))
            && OnlyEntryChanged(s, t, caller, id)
  {
    SetFieldInEncodedText(EntryOf(s, caller, id).GetOr(Unflagged), IsArchived);
    Success(Reply(SetFlag(s, caller, id, IsArchived), ""))
  }

  /** `getInboxEntry`: the stored triple, or "0|0|0" when nothing was
      delivered to `address` under `id`. */
  function GetInboxEntry(s: State, address: string, id: string): (r: string)
    ensures r == EncodeFlags(EntryOf(s, address, id).GetOr(Unflagged))
  {
    var entry := EntryOf(s, address, id);
    if entry.None? then "0|0|0" else EncodeFlags(entry.value)
  }

  // ---------- User settings ----------

  function GetSpamList(s: State, address: string): string {
    Get(s.spamList, address)
  }

  /** `setSpamList`: the caller's stored list becomes `addresses`, whole. */
  function SetSpamList(s: State, caller: string, addresses: string): (r: Result<Reply, Error>)
    ensures r.Success? && r.value.output == ""
    ensures var t := r.value.state;
            && GetSpamList(t, caller) == addresses
            && (forall a :: a != caller ==> GetSpamList(t, a) == GetSpamList(s, a))
            && t.maxInboxDays == s.maxInboxDays && t.maxSpamDays == s.maxSpamDays
            && SameRegistry(s, t) && SameLedger(s, t) && SameMailbox(s, t)
  {
    Success(Reply(s.(spamList := s.spamList[caller := addresses]), ""))
  }

  /** `getMaxInboxDays`: the stored text, or "60" while it reads as "". */
  function GetMaxInboxDays(s: State, address: string): (r: string)
    ensures r != ""
    ensures r == Get(s.maxInboxDays, address) || r == DefaultInboxDays
    ensures Get(s.maxInboxDays, address) != "" ==> r == Get(s.maxInboxDays, address)
  {
    var days := Get(s.maxInboxDays, address);
    if days == "" then DefaultInboxDays else days
  }

  /** `getMaxSpamDays`: the stored text, or "7" while it reads as "". */
  function GetMaxSpamDays(s: State, address: string): (r: string)
    ensures r != ""
    ensures r == Get(s.maxSpamDays, address) || r == DefaultSpamDays
    ensures Get(s.maxSpamDays, address) != "" ==> r == Get(s.maxSpamDays, address)
  {
    var days := Get(s.maxSpamDays, address);
    if days == "" then DefaultSpamDays else days
  }

  /** `setMaxInboxDays`: stores `days` unvalidated; the getter then returns
      it, or the default again when `days` is "". */
  function SetMaxInboxDays(s: State, caller: string, days: string): (r: Result<Reply, Error>)
    ensures r.Success? && r.value.output == ""
    ensures var t := r.value.state;
            && GetMaxInboxDays(t, caller) == (if days == "" then DefaultInboxDays else days)
            && (forall a :: a != caller ==> GetMaxInboxDays(t, a) == GetMaxInboxDays(s, a))
            && t.spamList == s.spamList && t.maxSpamDays == s.maxSpamDays
            && SameRegistry(s, t) && SameLedger(s, t) && SameMailbox(s, t)
  {
    Success(Reply(s.(maxInboxDays := s.maxInboxDays[caller := days]), ""))
  }

  /** `setMaxSpamDays`: as `setMaxInboxDays`, for the spam folder. */
  function SetMaxSpamDays(s: State, caller: string, days: string): (r: Result<Reply, Error>)
    ensures r.Success? && r.value.output == ""
    ensures var t := r.value.state;
            && GetMaxSpamDays(t, caller) == (if days == "" then DefaultSpamDays else days)
            && (forall a :: a != caller ==> GetMaxSpamDays(t, a) == GetMaxSpamDays(s, a))
            && t.spamList == s.spamList && t.maxInboxDays == s.maxInboxDays
            && SameRegistry(s, t) && SameLedger(s, t) && SameMailbox(s, t)
  {
    Success(Reply(s.(maxSpamDays := s.maxSpamDays[caller := days]), ""))
  }
}
