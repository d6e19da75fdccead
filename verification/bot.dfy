/** The command handlers of `Bot` (BotAssistant/BotAssistant/bot.py:9-100)
    as transitions of the address book. Each handler is written twice: the
    raw body, which may raise, and the handler as the `input_error`
    decorator wraps it, which turns the exception into a reply. */
module Bot {
  import opened Errors
  import opened Seqs
  import Fields
  import opened Records
  import opened Books

  /** What a handler reports when it returns normally. */
  datatype Success =
    | ContactAdded
    | PhoneAdded
    | PhoneChanged
    | PhonesListed(phones: seq<string>)
    | PhoneRemoved

  /** The kinds of message `input_error` returns instead of raising. */
  datatype Message =
    | ProvideUsername            // KeyError without an argument
    | NoContactNamed(key: string)
    | ValueMessage(reason: Reason)
    | ProvideNameAndPhone        // IndexError: 'list index out of range'

  datatype Reply = Done(success: Success) | Failed(message: Message)

  /** The book after a command, and what the command replied. */
  datatype Outcome = Outcome(book: Book, reply: Reply)

  /** What a raw handler computes when it does not raise. */
  datatype Effect = Effect(book: Book, success: Success)

  /** The exception classes `input_error` catches. */
  predicate Caught(e: Exception) {
    e.KeyError? || e.ValueError? || e.IndexError?
  }

  /** The message `input_error` picks for a caught exception. */
  function MessageFor(e: Exception): Message
    requires Caught(e)
  {
    match e
    case KeyError(None) => ProvideUsername
    case KeyError(Some(k)) => NoContactNamed(k)
    case ValueError(reason) => ValueMessage(reason)
    case IndexError => ProvideNameAndPhone
  }

  /** `input_error`: a raised exception becomes a reply, and the book is
      left as it was before the call. That holds in the handlers because
      none of them mutates before it raises: `Phone(...)` validates before
      the append or the replacement, and `delete`'s loop raises on its
      first comparison, before anything is removed. */
  function InputError(b: Book, raw: Result<Effect>): (o: Outcome)
    requires raw.Err? ==> Caught(raw.error)
    ensures o.reply.Done? <==> raw.Ok?
    ensures raw.Ok? ==> o.book == raw.value.book && o.reply == Done(raw.value.success)
    ensures raw.Err? ==> o.book == b && o.reply == Failed(MessageFor(raw.error))
  {
    match raw
    case Ok(effect) => Outcome(effect.book, Done(effect.success))
    case Err(e) => Outcome(b, Failed(MessageFor(e)))
  }

  /** `commands[i]`, which raises `IndexError` past the end. */
  function Arg(cmds: seq<string>, i: nat): (r: Result<string>)
    ensures r.Ok? <==> i < |cmds|
    ensures r.Ok? ==> r.value == cmds[i]
    ensures r.Err? ==> r.error == IndexError
  {
    if i < |cmds| then Ok(cmds[i]) else Err(IndexError)
  }

  /** `set_contact` before decoration (command `add <name> <phone>`). */
  function SetContactRaw(b: Book, cmds: seq<string>): (r: Result<Effect>)
    ensures r.Err? ==> Caught(r.error)
  {
    var name :- Arg(cmds, 1);
    match Find(b, name)
    case Some(rec) =>
      var phone :- Arg(cmds, 2);
      if phone in rec.phones then Err(ValueError(DuplicatePhone))
      else
        var updated :- AddPhone(rec, phone);
        Ok(Effect(Put(b, name, updated), PhoneAdded))
    case None =>
      var blank :- NewRecord(name, None);
      var phone :- Arg(cmds, 2);
      var created :- AddPhone(blank, phone);
      Ok(Effect(AddRecord(b, created), ContactAdded))
  }

  /** `add`: a known name gets the phone appended unless it is already
      listed; an unknown name becomes a new contact with exactly that phone,
      appended at the end of the book. Nothing changes on failure. */
  function SetContact(b: Book, cmds: seq<string>): (o: Outcome)
    ensures o.reply.Failed? ==> o.book == b
    ensures |cmds| < 2 ==> o == Outcome(b, Failed(ProvideNameAndPhone))
    ensures o.reply.Done? ==> |cmds| >= 3
    ensures |cmds| >= 3 && cmds[1] !in Keys(b) ==>
      && (o.reply.Done? <==> cmds[1] != "" && Fields.PhoneShape(cmds[2]))
      && (o.reply.Done? ==>
            && Keys(o.book) == Keys(b) + [cmds[1]]
            && Find(o.book, cmds[1]) == Some(Record(cmds[1], None, [cmds[2]]))
            && forall n :: n != cmds[1] ==> Find(o.book, n) == Find(b, n))
    ensures |cmds| >= 3 && cmds[1] in Keys(b) ==>
      var rec := Find(b, cmds[1]).value;
      && (o.reply.Done? <==> cmds[2] !in rec.phones && Fields.PhoneShape(cmds[2]))
      && (cmds[2] in rec.phones ==> o.reply == Failed(ValueMessage(DuplicatePhone)))
      && (o.reply.Done? ==>
            && OnlyChanged(b, o.book, cmds[1])
            && Find(o.book, cmds[1]) == Some(rec.(phones := rec.phones + [cmds[2]])))
  {
    var none: seq<string> := [];
    assert |cmds| >= 3 ==> none + [cmds[2]] == [cmds[2]];
    InputError(b, SetContactRaw(b, cmds))
  }

  /** `update_phone` before decoration (command `change <name> <old> <new>`).
      The guard reads `commands[3]` only when the old phone is missing,
      because `and` short-circuits. */
  function UpdatePhoneRaw(b: Book, cmds: seq<string>): (r: Result<Effect>)
    ensures r.Err? ==> Caught(r.error)
  {
    var name :- Arg(cmds, 1);
    match Find(b, name)
    case None => Err(ValueError(ContactNotFound))
    case Some(rec) =>
      var oldPhone :- Arg(cmds, 2);
      if oldPhone !in rec.phones && |cmds| <= 3 then Err(IndexError)
      else if oldPhone !in rec.phones && cmds[3] in rec.phones then Err(ValueError(PhoneConflict))
      else
        var newPhone :- Arg(cmds, 3);
        var edited :- EditPhone(rec, oldPhone, newPhone);
        Ok(Effect(Put(b, name, edited), PhoneChanged))
  }

  /** `change`: on a known contact it succeeds exactly when the old phone is
      listed and the new one is valid, and then only the first copy of the
      old phone is replaced. An unknown contact is an error. */
  function UpdatePhone(b: Book, cmds: seq<string>): (o: Outcome)
    ensures o.reply.Failed? ==> o.book == b
    ensures |cmds| < 2 ==> o == Outcome(b, Failed(ProvideNameAndPhone))
    ensures |cmds| >= 2 && cmds[1] !in Keys(b) ==> o == Outcome(b, Failed(ValueMessage(ContactNotFound)))
    ensures o.reply.Done? ==> |cmds| >= 4 && cmds[1] in Keys(b)
    ensures |cmds| >= 4 && cmds[1] in Keys(b) ==>
      var rec := Find(b, cmds[1]).value;
      && (o.reply.Done? <==> cmds[2] in rec.phones && Fields.PhoneShape(cmds[3]))
      && (o.reply.Done? ==>
            && OnlyChanged(b, o.book, cmds[1])
            && Find(o.book, cmds[1]).Some?
            && Find(o.book, cmds[1]).value.name == rec.name
            && Find(o.book, cmds[1]).value.birthday == rec.birthday
            && ReplacesFirst(rec.phones, Find(o.book, cmds[1]).value.phones, cmds[2], cmds[3]))
  {
    InputError(b, UpdatePhoneRaw(b, cmds))
  }

  /** `get_phone` before decoration (command `phone <name>`). */
  function GetPhoneRaw(b: Book, cmds: seq<string>): (r: Result<Effect>)
    ensures r.Err? ==> Caught(r.error)
  {
    var name :- Arg(cmds, 1);
    match Find(b, name)
    case None => Err(ValueError(ContactNotFound))
    case Some(rec) => Ok(Effect(b, PhonesListed(rec.phones)))
  }

  /** `phone`: the contact's phones in stored order; never changes the book. */
  function GetPhone(b: Book, cmds: seq<string>): (o: Outcome)
    ensures o.book == b
    ensures |cmds| < 2 ==> o.reply == Failed(ProvideNameAndPhone)
    ensures |cmds| >= 2 && cmds[1] !in Keys(b) ==> o.reply == Failed(ValueMessage(ContactNotFound))
    ensures |cmds| >= 2 && cmds[1] in Keys(b) ==>
      o.reply == Done(PhonesListed(Find(b, cmds[1]).value.phones))
  {
    InputError(b, GetPhoneRaw(b, cmds))
  }

  /** `remove` before decoration (command `delete <name> <phone>`). With
      more than one phone the loop's first comparison reads `commands[2]`
      before anything is removed; the loop is the one of `remove_phone`. */
  function RemoveRaw(b: Book, cmds: seq<string>): (r: Result<Effect>)
    ensures r.Err? ==> Caught(r.error)
  {
    var name :- Arg(cmds, 1);
    match Find(b, name)
    case None => Err(ValueError(ContactNotFound))
    case Some(rec) =>
      if |rec.phones| > 1 then
        var phone :- Arg(cmds, 2);
        Ok(Effect(Put(b, name, RemovePhone(rec, phone)), PhoneRemoved))
      else Err(ValueError(LastPhone))
  }

  /** `delete`: refuses a contact with at most one phone and an unknown
      contact; otherwise the contact keeps at least one phone, and its
      phones other than the target keep their order. */
  function Remove(b: Book, cmds: seq<string>): (o: Outcome)
    ensures o.reply.Failed? ==> o.book == b
    ensures |cmds| < 2 ==> o == Outcome(b, Failed(ProvideNameAndPhone))
    ensures |cmds| >= 2 && cmds[1] !in Keys(b) ==> o == Outcome(b, Failed(ValueMessage(ContactNotFound)))
    ensures o.reply.Done? ==> |cmds| >= 3
    ensures |cmds| >= 2 && cmds[1] in Keys(b) && |Find(b, cmds[1]).value.phones| <= 1 ==>
      o == Outcome(b, Failed(ValueMessage(LastPhone)))
    ensures |cmds| >= 3 && cmds[1] in Keys(b) && |Find(b, cmds[1]).value.phones| > 1 ==>
      var rec := Find(b, cmds[1]).value;
      && o.reply == Done(PhoneRemoved)
      && OnlyChanged(b, o.book, cmds[1])
      && Find(o.book, cmds[1]).Some?
      && var after := Find(o.book, cmds[1]).value;
      && after.name == rec.name && after.birthday == rec.birthday
      && after.phones == SkipRemove(rec.phones, cmds[2])
      && 1 <= |after.phones| <= |rec.phones|
      && Without(after.phones, cmds[2]) == Without(rec.phones, cmds[2])
      && (cmds[2] in rec.phones ==>
            multiset(after.phones)[cmds[2]] < multiset(rec.phones)[cmds[2]])
  {
    InputError(b, RemoveRaw(b, cmds))
  }

  /** `delete` replies that the phone was removed even when the contact
      never had it; the book is then unchanged. */
  lemma RemoveReportsAbsentPhoneRemoved(b: Book, cmds: seq<string>)
    requires |cmds| >= 3 && cmds[1] in Keys(b)
    requires |Find(b, cmds[1]).value.phones| > 1
    requires cmds[2] !in Find(b, cmds[1]).value.phones
    ensures Remove(b, cmds) == Outcome(b, Done(PhoneRemoved))
  {
    var rec := Find(b, cmds[1]).value;
    assert RemovePhone(rec, cmds[2]) == rec;
    var c := Put(b, cmds[1], rec);
    assert forall n :: Find(c, n) == Find(b, n);
    SameFindsSameBook(c, b);
  }

  /** Every contact is stored under its own name and has at least one
      phone: what the handlers rely on when they refuse to delete the last
      phone. */
  ghost predicate Invariant(b: Book) {
    forall n :: Find(b, n).Some? ==> Find(b, n).value.name == n && |Find(b, n).value.phones| >= 1
  }

  /** `add` keeps the invariant: a new contact starts with one phone. */
  lemma SetContactKeepsInvariant(b: Book, cmds: seq<string>)
    requires Invariant(b)
    ensures Invariant(SetContact(b, cmds).book)
  {
    var o := SetContact(b, cmds);
    if o.reply.Done? {
      forall n | Find(o.book, n).Some?
        ensures Find(o.book, n).value.name == n && |Find(o.book, n).value.phones| >= 1
      {
        if n != cmds[1] {
          assert Find(o.book, n) == Find(b, n);
        }
      }
    }
  }

  /** `change` keeps the invariant: replacing a phone keeps the count. */
  lemma UpdatePhoneKeepsInvariant(b: Book, cmds: seq<string>)
    requires Invariant(b)
    ensures Invariant(UpdatePhone(b, cmds).book)
  {
    var u := UpdatePhone(b, cmds);
    if u.reply.Done? {
      forall n | Find(u.book, n).Some?
        ensures Find(u.book, n).value.name == n && |Find(u.book, n).value.phones| >= 1
      {
        if n != cmds[1] {
          assert Find(u.book, n) == Find(b, n);
        }
      }
    }
  }

  /** `delete` keeps the invariant: it refuses the last phone, and the walk
      never empties a list of two or more. */
  lemma RemoveKeepsInvariant(b: Book, cmds: seq<string>)
    requires Invariant(b)
    ensures Invariant(Remove(b, cmds).book)
  {
    var r := Remove(b, cmds);
    if r.reply.Done? {
      forall n | Find(r.book, n).Some?
        ensures Find(r.book, n).value.name == n && |Find(r.book, n).value.phones| >= 1
      {
        if n != cmds[1] {
          assert Find(r.book, n) == Find(b, n);
        }
      }
    }
  }

  /** No contact lists the same phone twice. */
  ghost predicate DistinctPhones(b: Book) {
    forall n :: Find(b, n).Some? ==> Distinct(Find(b, n).value.phones)
  }

  /** `change` with the new phone already listed next to the old one
      succeeds and leaves the same phone twice in the contact's list. */
  lemma ChangeCanDuplicatePhone(b: Book, cmds: seq<string>)
    requires |cmds| >= 4 && cmds[1] in Keys(b)
    requires cmds[2] != cmds[3] && Fields.PhoneShape(cmds[3])
    requires cmds[2] in Find(b, cmds[1]).value.phones && cmds[3] in Find(b, cmds[1]).value.phones
    ensures UpdatePhone(b, cmds).reply == Done(PhoneChanged)
    ensures !Distinct(Find(UpdatePhone(b, cmds).book, cmds[1]).value.phones)
  {
    var ps := Find(b, cmds[1]).value.phones;
    var qs := Find(UpdatePhone(b, cmds).book, cmds[1]).value.phones;
    var k :| 0 <= k < |ps| && ps[k] == cmds[2] && cmds[2] !in ps[..k] && qs[k] == cmds[3]
      && forall j :: 0 <= j < |ps| && j != k ==> qs[j] == ps[j];
    var j := IndexOf(ps, cmds[3]);
    assert j != k && qs[j] == qs[k];
  }

  /** A concrete case: Ann's phones 1111111111 and 2222222222, then
      `change Ann 1111111111 2222222222`. */
  lemma ChangeDuplicateExample()
    ensures var b: Book := [Entry("Ann", Record("Ann", None, ["1111111111", "2222222222"]))];
      var o := UpdatePhone(b, ["change", "Ann", "1111111111", "2222222222"]);
      o.reply == Done(PhoneChanged) && Find(o.book, "Ann").value.phones == ["2222222222", "2222222222"]
  {
    var rec := Record("Ann", None, ["1111111111", "2222222222"]);
    var b: Book := [Entry("Ann", rec)];
    var cmds := ["change", "Ann", "1111111111", "2222222222"];
    assert Keys(b) == ["Ann"];
    FindAt(b, 0);
    assert Find(b, "Ann") == Some(rec);
    Fields.PhoneValidIff("2222222222");
    ChangeCanDuplicatePhone(b, cmds);
    var ps := rec.phones;
    var qs := Find(UpdatePhone(b, cmds).book, "Ann").value.phones;
    assert ReplacesFirst(ps, qs, "1111111111", "2222222222");
    var k :| 0 <= k < |ps| && ps[k] == "1111111111" && "1111111111" !in ps[..k] && qs[k] == "2222222222"
      && forall j :: 0 <= j < |ps| && j != k ==> qs[j] == ps[j];
    assert k == 0;
    assert qs[1] == ps[1];
  }

  /** `update_phone` with the guard its message describes: refuse when the
      old phone is missing or the new one is already listed. */
  function UpdatePhoneIntendedRaw(b: Book, cmds: seq<string>): (r: Result<Effect>)
    ensures r.Err? ==> Caught(r.error)
  {
    var name :- Arg(cmds, 1);
    match Find(b, name)
    case None => Err(ValueError(ContactNotFound))
    case Some(rec) =>
      var oldPhone :- Arg(cmds, 2);
      if oldPhone !in rec.phones then Err(ValueError(PhoneConflict))
      else
        var newPhone :- Arg(cmds, 3);
        if newPhone in rec.phones then Err(ValueError(PhoneConflict))
        else
          var edited :- EditPhone(rec, oldPhone, newPhone);
          Ok(Effect(Put(b, name, edited), PhoneChanged))
  }

  /** The corrected `change`: succeeds exactly when the old phone is listed,
      the new one is not, and the new one is valid. */
  function UpdatePhoneIntended(b: Book, cmds: seq<string>): (o: Outcome)
    ensures o.reply.Failed? ==> o.book == b
    ensures |cmds| < 2 ==> o == Outcome(b, Failed(ProvideNameAndPhone))
    ensures |cmds| >= 2 && cmds[1] !in Keys(b) ==> o == Outcome(b, Failed(ValueMessage(ContactNotFound)))
    ensures o.reply.Done? ==> |cmds| >= 4 && cmds[1] in Keys(b)
    ensures |cmds| >= 4 && cmds[1] in Keys(b) ==>
      var rec := Find(b, cmds[1]).value;
      && (o.reply.Done? <==> cmds[2] in rec.phones && cmds[3] !in rec.phones && Fields.PhoneShape(cmds[3]))
      && (o.reply.Done? ==>
            && OnlyChanged(b, o.book, cmds[1])
            && Find(o.book, cmds[1]).Some?
            && Find(o.book, cmds[1]).value.name == rec.name
            && Find(o.book, cmds[1]).value.birthday == rec.birthday
            && ReplacesFirst(rec.phones, Find(o.book, cmds[1]).value.phones, cmds[2], cmds[3]))
  {
    InputError(b, UpdatePhoneIntendedRaw(b, cmds))
  }

  /** `add` keeps phones distinct: it refuses a phone already listed. */
  lemma SetContactKeepsDistinct(b: Book, cmds: seq<string>)
    requires DistinctPhones(b)
    ensures DistinctPhones(SetContact(b, cmds).book)
  {
    var o := SetContact(b, cmds);
    if o.reply.Done? {
      forall n | Find(o.book, n).Some?
        ensures Distinct(Find(o.book, n).value.phones)
      {
        if n != cmds[1] {
          assert Find(o.book, n) == Find(b, n);
        }
      }
    }
  }

  /** The corrected `change` keeps phones distinct. */
  lemma IntendedChangeKeepsDistinct(b: Book, cmds: seq<string>)
    requires DistinctPhones(b)
    ensures DistinctPhones(UpdatePhoneIntended(b, cmds).book)
  {
    var u := UpdatePhoneIntended(b, cmds);
    if u.reply.Done? {
      forall n | Find(u.book, n).Some?
        ensures Distinct(Find(u.book, n).value.phones)
      {
        if n != cmds[1] {
          assert Find(u.book, n) == Find(b, n);
        } else {
          var ps := Find(b, n).value.phones;
          var qs := Find(u.book, n).value.phones;
          var k :| 0 <= k < |ps| && ps[k] == cmds[2] && cmds[2] !in ps[..k] && qs[k] == cmds[3]
            && forall j :: 0 <= j < |ps| && j != k ==> qs[j] == ps[j];
          forall i, j | 0 <= i < j < |qs|
            ensures qs[i] != qs[j]
          {
            if i == k {
              assert qs[j] == ps[j];
            } else if j == k {
              assert qs[i] == ps[i];
            }
          }
        }
      }
    }
  }

  /** `delete` keeps phones distinct; on distinct phones it also removes the
      target completely. */
  lemma RemoveKeepsDistinct(b: Book, cmds: seq<string>)
    requires DistinctPhones(b)
    ensures DistinctPhones(Remove(b, cmds).book)
    ensures |cmds| >= 3 && Remove(b, cmds).reply.Done? ==>
      cmds[2] !in Find(Remove(b, cmds).book, cmds[1]).value.phones
  {
    var r := Remove(b, cmds);
    if r.reply.Done? {
      var rec := Find(b, cmds[1]).value;
      assert Find(r.book, cmds[1]) == Some(RemovePhone(rec, cmds[2]));
      DistinctNoAdjacent(rec.phones, cmds[2]);
      SkipRemoveRemovesAllWhenApart(rec.phones, cmds[2]);
      forall n | Find(r.book, n).Some?
        ensures Distinct(Find(r.book, n).value.phones)
      {
        if n != cmds[1] {
          assert Find(r.book, n) == Find(b, n);
        } else {
          SkipRemoveKeepsDistinct(rec.phones, cmds[2]);
        }
      }
    }
  }
}
