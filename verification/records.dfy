/** `Record` (BotAssistant/BotAssistant/address_book.py:60-111): one contact's
    name, optional birthday and ordered list of phone strings. */
module Records {
  import opened Errors
  import opened Seqs
  import Fields
  import opened Calendar

  /** Phones are kept as their string values: every comparison in the
      source is on `phone.value`. */
  datatype Record = Record(name: string, birthday: Option<Date>, phones: seq<string>)

  /** `Record.__init__`: the name is validated as a `Name`; the phone list
      starts empty. */
  function NewRecord(name: string, birthday: Option<Date>): (r: Result<Record>)
    ensures r.Ok? <==> name != ""
    ensures r.Ok? ==> r.value.name == name && r.value.birthday == birthday && r.value.phones == []
    ensures r.Err? ==> r.error == ValueError(InvalidField(NameField))
  {
    if Fields.NameValid(name) then Ok(Record(name, birthday, []))
    else Err(ValueError(InvalidField(NameField)))
  }

  /** `add_phone`: validate, then append; duplicates are not checked here. */
  function AddPhone(r: Record, p: string): (res: Result<Record>)
    ensures res.Ok? <==> Fields.PhoneShape(p)
    ensures res.Ok? ==> res.value.name == r.name && res.value.birthday == r.birthday
    ensures res.Ok? ==> res.value.phones == r.phones + [p]
    ensures res.Err? ==> res.error == ValueError(InvalidField(PhoneField))
  {
    Fields.PhoneValidIff(p);
    if Fields.PhoneValid(p) then Ok(r.(phones := r.phones + [p]))
    else Err(ValueError(InvalidField(PhoneField)))
  }

  /** `qs` is `ps` with its first `oldPhone` replaced by `newPhone` and nothing else changed. */
  predicate ReplacesFirst(ps: seq<string>, qs: seq<string>, oldPhone: string, newPhone: string) {
    && |qs| == |ps|
    && exists k :: 0 <= k < |ps| && ps[k] == oldPhone && oldPhone !in ps[..k] && qs[k] == newPhone
         && forall j :: 0 <= j < |ps| && j != k ==> qs[j] == ps[j]
  }

  /** `edit_phone`: the new phone is validated before the list is searched;
      the first equal phone is replaced; no match raises. */
  function EditPhone(r: Record, oldPhone: string, newPhone: string): (res: Result<Record>)
    ensures res.Ok? <==> Fields.PhoneShape(newPhone) && oldPhone in r.phones
    ensures !Fields.PhoneShape(newPhone) ==> res == Err(ValueError(InvalidField(PhoneField)))
    ensures Fields.PhoneShape(newPhone) && oldPhone !in r.phones ==> res == Err(ValueError(PhoneNotFound))
    ensures res.Ok? ==> res.value.name == r.name && res.value.birthday == r.birthday
    ensures res.Ok? ==> ReplacesFirst(r.phones, res.value.phones, oldPhone, newPhone)
  {
    Fields.PhoneValidIff(newPhone);
    if !Fields.PhoneValid(newPhone) then Err(ValueError(InvalidField(PhoneField)))
    else
      var k := IndexOf(r.phones, oldPhone);
      if k < |r.phones| then
        assert oldPhone !in r.phones[..k];
        Ok(r.(phones := r.phones[k := newPhone]))
      else Err(ValueError(PhoneNotFound))
  }

  /** `find_phone`: the first phone equal to `p`, or `None`. */
  function FindPhone(r: Record, p: string): (res: Option<string>)
    ensures res.Some? <==> p in r.phones
    ensures res.Some? ==> res.value == p
  {
    var k := IndexOf(r.phones, p);
    if k < |r.phones| then Some(r.phones[k]) else None
  }

  /** The `for phone in phones: if ...: phones.remove(phone)` loop, as Python
      runs it: the list iterator holds an index `i`; removing the current
      element slides its successor into slot `i`, and the iterator then
      moves on to `i + 1`, so that successor is never examined. */
  function RemoveWalk(ps: seq<string>, p: string, i: nat): seq<string>
    decreases |ps|, |ps| - i
  {
    if i >= |ps| then ps
    else if ps[i] == p then RemoveWalk(ps[..i] + ps[i + 1..], p, i + 1)
    else RemoveWalk(ps, p, i + 1)
  }

  /** The same removal stated on the list's structure: a matching head is
      dropped and the element after it is kept unexamined. */
  function SkipRemove(ps: seq<string>, p: string): seq<string>
    decreases |ps|
  {
    if |ps| == 0 then []
    else if ps[0] != p then [ps[0]] + SkipRemove(ps[1..], p)
    else if |ps| == 1 then []
    else [ps[1]] + SkipRemove(ps[2..], p)
  }

  /** The index walk and the structural definition agree from any index. */
  lemma {:induction false} RemoveWalkIsSkipRemove(ps: seq<string>, p: string, i: nat)
    requires i <= |ps|
    ensures RemoveWalk(ps, p, i) == ps[..i] + SkipRemove(ps[i..], p)
    decreases |ps|, |ps| - i
  {
    if i == |ps| {
      assert ps[..i] == ps;
    } else if ps[i] != p {
      RemoveWalkIsSkipRemove(ps, p, i + 1);
      assert ps[i..][1..] == ps[i + 1..];
      assert ps[..i + 1] == ps[..i] + [ps[i]];
    } else {
      var qs := ps[..i] + ps[i + 1..];
      if i + 1 == |ps| {
        assert qs == ps[..i];
      } else {
        RemoveWalkIsSkipRemove(qs, p, i + 1);
        assert qs[..i + 1] == ps[..i] + [ps[i + 1]];
        assert qs[i + 1..] == ps[i + 2..];
        assert ps[i..][2..] == ps[i + 2..];
      }
    }
  }

  lemma {:induction false} SkipRemoveShorter(ps: seq<string>, p: string)
    ensures |SkipRemove(ps, p)| <= |ps|
    ensures |ps| >= 2 ==> |SkipRemove(ps, p)| >= 1
    decreases |ps|
  {
    if |ps| >= 1 && ps[0] != p {
      SkipRemoveShorter(ps[1..], p);
    } else if |ps| >= 2 {
      SkipRemoveShorter(ps[2..], p);
    }
  }

  /** Phones other than `p` survive, in their order and number. */
  lemma {:induction false} SkipRemoveKeepsOthers(ps: seq<string>, p: string)
    ensures Without(SkipRemove(ps, p), p) == Without(ps, p)
    decreases |ps|
  {
    if |ps| == 0 {
    } else if ps[0] != p {
      var rest := SkipRemove(ps[1..], p);
      SkipRemoveKeepsOthers(ps[1..], p);
      assert ([ps[0]] + rest)[1..] == rest;
    } else if |ps| >= 2 {
      var rest := SkipRemove(ps[2..], p);
      SkipRemoveKeepsOthers(ps[2..], p);
      assert ([ps[1]] + rest)[1..] == rest;
      assert ps[1..][1..] == ps[2..];
    }
  }

  /** Only copies of `p` are taken out, and at least one is when `p` is present. */
  lemma {:induction false} SkipRemoveDropsTarget(ps: seq<string>, p: string)
    ensures multiset(SkipRemove(ps, p)) <= multiset(ps)
    ensures p in ps ==> multiset(SkipRemove(ps, p))[p] < multiset(ps)[p]
    ensures forall y :: y != p ==> multiset(SkipRemove(ps, p))[y] == multiset(ps)[y]
    decreases |ps|
  {
    if |ps| >= 1 && ps[0] != p {
      var rest := SkipRemove(ps[1..], p);
      SkipRemoveDropsTarget(ps[1..], p);
      assert ps == [ps[0]] + ps[1..];
      assert multiset(ps) == multiset{ps[0]} + multiset(ps[1..]);
      assert multiset([ps[0]] + rest) == multiset{ps[0]} + multiset(rest);
    } else if |ps| >= 2 {
      var rest := SkipRemove(ps[2..], p);
      SkipRemoveDropsTarget(ps[2..], p);
      assert ps == [ps[0]] + [ps[1]] + ps[2..];
      assert multiset(ps) == multiset{ps[0]} + multiset{ps[1]} + multiset(ps[2..]);
      assert multiset([ps[1]] + rest) == multiset{ps[1]} + multiset(rest);
    }
  }

  /** With no match the list comes back as it was. */
  lemma {:induction false} SkipRemoveAbsent(ps: seq<string>, p: string)
    ensures p !in ps ==> SkipRemove(ps, p) == ps
    decreases |ps|
  {
    if |ps| > 0 && p !in ps {
      SkipRemoveAbsent(ps[1..], p);
      assert ps == [ps[0]] + ps[1..];
    }
  }

  /** `p` never occurs twice in a row in `ps`. */
  predicate NoAdjacent(ps: seq<string>, p: string) {
    forall i :: 0 <= i < |ps| - 1 ==> !(ps[i] == p && ps[i + 1] == p)
  }

  /** When no two copies of `p` are adjacent (in particular when the phones
      are distinct) the walk does remove every copy. */
  lemma {:induction false} SkipRemoveRemovesAllWhenApart(ps: seq<string>, p: string)
    requires NoAdjacent(ps, p)
    ensures SkipRemove(ps, p) == Without(ps, p)
    decreases |ps|
  {
    if |ps| == 0 {
    } else if ps[0] != p {
      SkipRemoveRemovesAllWhenApart(ps[1..], p);
    } else if |ps| >= 2 {
      assert ps[1] != p;
      assert ps[1..][1..] == ps[2..];
      SkipRemoveRemovesAllWhenApart(ps[2..], p);
    }
  }

  lemma DistinctNoAdjacent(ps: seq<string>, p: string)
    requires Distinct(ps)
    ensures NoAdjacent(ps, p)
  {
    forall i | 0 <= i < |ps| - 1
      ensures !(ps[i] == p && ps[i + 1] == p)
    {
      assert ps[i] != ps[i + 1];
    }
  }

  /** The walk only ever drops phones: everything it keeps was there before. */
  lemma {:induction false} SkipRemoveFromList(ps: seq<string>, p: string)
    ensures forall y | y in SkipRemove(ps, p) :: y in ps
    decreases |ps|
  {
    if |ps| >= 1 && ps[0] != p {
      SkipRemoveFromList(ps[1..], p);
    } else if |ps| >= 2 {
      SkipRemoveFromList(ps[2..], p);
    }
  }

  lemma ConsDistinct(x: string, s: seq<string>)
    requires Distinct(s) && x !in s
    ensures Distinct([x] + s)
  {
    var r := [x] + s;
    forall i, j | 0 <= i < j < |r|
      ensures r[i] != r[j]
    {
      assert r[j] == s[j - 1];
      if i > 0 {
        assert r[i] == s[i - 1];
      }
    }
  }

  /** Removing from a list of distinct phones leaves them distinct. */
  lemma {:induction false} SkipRemoveKeepsDistinct(ps: seq<string>, p: string)
    requires Distinct(ps)
    ensures Distinct(SkipRemove(ps, p))
    decreases |ps|
  {
    if |ps| >= 1 && ps[0] != p {
      assert Distinct(ps[1..]);
      SkipRemoveKeepsDistinct(ps[1..], p);
      SkipRemoveFromList(ps[1..], p);
      ConsDistinct(ps[0], SkipRemove(ps[1..], p));
    } else if |ps| >= 2 {
      assert Distinct(ps[2..]);
      SkipRemoveKeepsDistinct(ps[2..], p);
      SkipRemoveFromList(ps[2..], p);
      ConsDistinct(ps[1], SkipRemove(ps[2..], p));
    }
  }

  /** Two equal phones in a row: only the first goes. */
  lemma AdjacentDuplicateSurvives()
    ensures SkipRemove(["1111111111", "1111111111", "2222222222"], "1111111111")
         == ["1111111111", "2222222222"]
  {
    var ps := ["1111111111", "1111111111", "2222222222"];
    assert ps[2..] == ["2222222222"];
    assert ["2222222222"][1..] == [];
  }

  /** `remove_phone`. */
  function RemovePhone(r: Record, p: string): (res: Record)
    ensures res.name == r.name && res.birthday == r.birthday
    ensures res.phones == SkipRemove(r.phones, p)
    ensures |res.phones| <= |r.phones|
    ensures |r.phones| >= 2 ==> |res.phones| >= 1
    ensures Without(res.phones, p) == Without(r.phones, p)
    ensures p !in r.phones ==> res.phones == r.phones
    ensures p in r.phones ==> multiset(res.phones)[p] < multiset(r.phones)[p]
  {
    RemoveWalkIsSkipRemove(r.phones, p, 0);
    assert r.phones[0..] == r.phones;
    SkipRemoveShorter(r.phones, p);
    SkipRemoveKeepsOthers(r.phones, p);
    SkipRemoveDropsTarget(r.phones, p);
    SkipRemoveAbsent(r.phones, p);
    r.(phones := RemoveWalk(r.phones, p, 0))
  }

  /** `days_to_birthday` with the clock passed in as `today`; a record
      without a birthday fails on `None.value`. */
  function DaysToBirthday(r: Record, today: Date): (res: Result<int>)
    requires r.birthday.Some? ==> Valid(r.birthday.value)
    requires Valid(today)
    ensures r.birthday.None? ==> res == Err(AttributeError)
    ensures res.Ok? ==> 1 <= res.value <= 366
  {
    match r.birthday
    case None => Err(AttributeError)
    case Some(b) => DaysUntil(b, today)
  }
}
