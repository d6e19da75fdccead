/** `AddressBook` (BotAssistant/BotAssistant/address_book.py:114-163): an
    insertion-ordered dictionary from contact name to `Record`, modelled as
    a sequence of entries with unique keys. */
module Books {
  import opened Errors
  import opened Seqs
  import opened Text
  import opened Records

  datatype Entry = Entry(name: string, record: Record)

  predicate UniqueKeys(es: seq<Entry>) {
    forall i, j :: 0 <= i < j < |es| ==> es[i].name != es[j].name
  }

  /** A dictionary: no key occurs twice. */
  type Book = es: seq<Entry> | UniqueKeys(es) witness []

  /** The keys in insertion order. */
  function Keys(es: seq<Entry>): (ks: seq<string>)
    ensures |ks| == |es|
    ensures forall i :: 0 <= i < |es| ==> ks[i] == es[i].name
  {
    seq(|es|, i requires 0 <= i < |es| => es[i].name)
  }

  /** `values()` in insertion order. */
  function Values(es: seq<Entry>): (vs: seq<Record>)
    ensures |vs| == |es|
    ensures forall i :: 0 <= i < |es| ==> vs[i] == es[i].record
  {
    seq(|es|, i requires 0 <= i < |es| => es[i].record)
  }

  /** `find`: `data.get(name, None)`. */
  function Find(b: Book, key: string): (r: Option<Record>)
    ensures r.Some? <==> key in Keys(b)
    ensures r.Some? ==> Entry(key, r.value) in b
  {
    var k := IndexOf(Keys(b), key);
    if k < |b| then Some(b[k].record) else None
  }

  /** In a dictionary the entry at position `i` is the one found under its key. */
  lemma FindAt(b: Book, i: int)
    requires 0 <= i < |b|
    ensures IndexOf(Keys(b), b[i].name) == i
    ensures Find(b, b[i].name) == Some(b[i].record)
  {
  }

  /** Two books with the same key sequence find `key` at the same position. */
  lemma SameKeysSameIndex(b: Book, c: Book, key: string)
    requires Keys(b) == Keys(c)
    ensures IndexOf(Keys(b), key) == IndexOf(Keys(c), key)
  {
  }

  /** Appending a key does not move a key already present. */
  lemma IndexOfAppend(ks: seq<string>, extra: string, key: string)
    requires key in ks
    ensures IndexOf(ks + [extra], key) == IndexOf(ks, key)
    decreases |ks|
  {
    if ks[0] != key {
      assert (ks + [extra])[1..] == ks[1..] + [extra];
      IndexOfAppend(ks[1..], extra, key);
    }
  }

  /** `data[key] = rec`: overwrite in place if the key is present, append
      otherwise. An overwrite keeps the key's original position. */
  function Put(b: Book, key: string, rec: Record): (r: Book)
    ensures Find(r, key) == Some(rec)
    ensures forall n :: n != key ==> Find(r, n) == Find(b, n)
    ensures key in Keys(b) ==> Keys(r) == Keys(b)
    ensures key !in Keys(b) ==> Keys(r) == Keys(b) + [key]
  {
    var k := IndexOf(Keys(b), key);
    if k < |b| then
      var r: Book := b[k := Entry(key, rec)];
      assert Keys(r) == Keys(b);
      FindAt(r, k);
      assert forall n :: n != key ==> Find(r, n) == Find(b, n) by {
        forall n | n != key
          ensures Find(r, n) == Find(b, n)
        {
          SameKeysSameIndex(b, r, n);
        }
      }
      r
    else
      var r: Book := b + [Entry(key, rec)];
      assert Keys(r) == Keys(b) + [key];
      FindAt(r, |b|);
      assert forall n :: n != key ==> Find(r, n) == Find(b, n) by {
        forall n | n != key
          ensures Find(r, n) == Find(b, n)
        {
          if n in Keys(b) {
            IndexOfAppend(Keys(b), key, n);
          }
        }
      }
      r
  }

  /** `add_record`: stores the record under its own name. The source's guard
      `if not record.name` tests a `Name` object, which is always truthy, so
      it never returns early and is not modelled. */
  function AddRecord(b: Book, rec: Record): (r: Book)
    ensures Find(r, rec.name) == Some(rec)
    ensures forall n :: n != rec.name ==> Find(r, n) == Find(b, n)
    ensures rec.name in Keys(b) ==> Keys(r) == Keys(b)
    ensures rec.name !in Keys(b) ==> Keys(r) == Keys(b) + [rec.name]
  {
    Put(b, rec.name, rec)
  }

  /** Dropping one entry keeps the keys unique. */
  lemma DeleteAtUnique(b: Book, k: nat)
    requires k < |b|
    ensures UniqueKeys(b[..k] + b[k + 1..])
  {
    var r := b[..k] + b[k + 1..];
    forall i, j | 0 <= i < j < |r|
      ensures r[i].name != r[j].name
    {
      var i' := if i < k then i else i + 1;
      var j' := if j < k then j else j + 1;
      assert r[i] == b[i'] && r[j] == b[j'];
    }
  }

  /** The keys left after dropping position `k`, the only one holding its key. */
  lemma DeleteAtKeys(b: Book, k: nat)
    requires k < |b|
    ensures Keys(b[..k] + b[k + 1..]) == Without(Keys(b), b[k].name)
  {
    var key := b[k].name;
    var ks := Keys(b);
    var front, back := ks[..k], ks[k + 1..];
    assert ks == front + [key] + back;
    assert key !in front;
    assert key !in back;
    assert Keys(b[..k] + b[k + 1..]) == front + back;
    WithoutConcat(front + [key], back, key);
    WithoutConcat(front, [key], key);
    WithoutAbsent(front, key);
    WithoutAbsent(back, key);
    assert Without([key], key) == [];
  }

  /** Dropping position `k` leaves every other key's record where `Find` sees it. */
  lemma DeleteAtFinds(b: Book, k: nat, n: string)
    requires k < |b| && n != b[k].name
    requires UniqueKeys(b[..k] + b[k + 1..])
    ensures Find(b[..k] + b[k + 1..], n) == Find(b, n)
  {
    var r: Book := b[..k] + b[k + 1..];
    if n in Keys(b) {
      var i := IndexOf(Keys(b), n);
      FindAt(b, i);
      var j := if i < k then i else i - 1;
      assert r[j] == b[i];
      FindAt(r, j);
    } else {
      assert forall j | 0 <= j < |r| :: r[j] in b;
      assert n !in Keys(r);
    }
  }

  /** `delete`: `pop(name, None)`, a no-op when the key is absent. */
  function Delete(b: Book, key: string): (r: Book)
    ensures Find(r, key) == None
    ensures forall n :: n != key ==> Find(r, n) == Find(b, n)
    ensures Keys(r) == Without(Keys(b), key)
    ensures key !in Keys(b) ==> r == b
  {
    var k := IndexOf(Keys(b), key);
    if k < |b| then
      DeleteAtUnique(b, k);
      DeleteAtKeys(b, k);
      var r: Book := b[..k] + b[k + 1..];
      assert forall n :: n != key ==> Find(r, n) == Find(b, n) by {
        forall n | n != key
          ensures Find(r, n) == Find(b, n)
        {
          DeleteAtFinds(b, k, n);
        }
      }
      r
    else
      WithoutAbsent(Keys(b), key);
      b
  }

  /** `c` differs from `b` at most in the record under `key`, and every key
      keeps its position. */
  ghost predicate OnlyChanged(b: Book, c: Book, key: string) {
    && Keys(c) == Keys(b)
    && forall n :: n != key ==> Find(c, n) == Find(b, n)
  }

  /** Two dictionaries with the same keys in the same order and the same
      record under every key are the same book. */
  lemma SameFindsSameBook(b: Book, c: Book)
    requires Keys(b) == Keys(c)
    requires forall n :: Find(b, n) == Find(c, n)
    ensures b == c
  {
    forall i | 0 <= i < |b|
      ensures b[i] == c[i]
    {
      assert Keys(b)[i] == Keys(c)[i];
      FindAt(b, i);
      FindAt(c, i);
    }
  }

  /** The test `search_records` applies to one entry: the text in the name
      ignoring case, or in some phone respecting case. */
  predicate Matches(text: string, e: Entry) {
    || Contains(Lower(e.name), Lower(text))
    || exists j :: 0 <= j < |e.record.phones| && Contains(e.record.phones[j], text)
  }

  /** The entries that match `text`, in their order (a reference definition
      for `search_records`). */
  function Select(es: seq<Entry>, text: string): (r: seq<Entry>)
    ensures forall e | e in r :: e in es && Matches(text, e)
    ensures forall e | e in es && Matches(text, e) :: e in r
    ensures IsSubseq(r, es)
    decreases |es|
  {
    if |es| == 0 then []
    else
      var init := es[..|es| - 1];
      var last := es[|es| - 1];
      assert es == init + [last];
      var rest := Select(init, text);
      if Matches(text, last) then
        assert (rest + [last])[..|rest|] == rest;
        rest + [last]
      else rest
  }

  lemma SelectSnoc(es: seq<Entry>, i: int, text: string)
    requires 0 <= i < |es|
    ensures Select(es[..i + 1], text) == Select(es[..i], text) + (if Matches(text, es[i]) then [es[i]] else [])
  {
    assert es[..i + 1][..i] == es[..i];
  }

  /** Searching for the empty text keeps the whole book: `"" in s` holds for every `s`. */
  lemma {:induction false} SelectEmptyText(es: seq<Entry>)
    ensures Select(es, "") == es
    decreases |es|
  {
    if |es| > 0 {
      var init := es[..|es| - 1];
      SelectEmptyText(init);
      EmptyOccursEverywhere(Lower(es[|es| - 1].name));
      assert Lower("") == "";
      assert es == init + [es[|es| - 1]];
    }
  }

  /** The inner loop of `search_records`: is `text` in any phone? */
  method AnyPhoneContains(phones: seq<string>, text: string) returns (hit: bool)
    ensures hit <==> exists j :: 0 <= j < |phones| && Contains(phones[j], text)
  {
    var j := 0;
    while j < |phones|
      invariant 0 <= j <= |phones|
      invariant forall m :: 0 <= m < j ==> !Contains(phones[m], text)
    {
      if Contains(phones[j], text) {
        return true;
      }
      j := j + 1;
    }
    return false;
  }

  /** `search_records`: a new book of the matching entries, in order. */
  method SearchRecords(b: Book, text: string) returns (found: Book)
    ensures forall e | e in found :: e in b && Matches(text, e)
    ensures forall e | e in b && Matches(text, e) :: e in found
    ensures IsSubseq(found, b)
    ensures found == Select(b, text)
  {
    found := [];
    var i := 0;
    while i < |b|
      invariant 0 <= i <= |b|
      invariant found == Select(b[..i], text)
    {
      var e := b[i];
      SelectSnoc(b, i, text);
      var keep := Contains(Lower(e.name), Lower(text));
      if !keep {
        keep := AnyPhoneContains(e.record.phones, text);
      }
      if keep {
        assert forall f | f in found :: f in b[..i];
        assert forall j | 0 <= j < |found| :: found[j].name != e.name by {
          forall j | 0 <= j < |found|
            ensures found[j].name != e.name
          {
            var f := found[j];
            assert f in b[..i];
            var m :| 0 <= m < i && b[m] == f;
          }
        }
        found := found + [e];
      }
      i := i + 1;
    }
    assert b[..|b|] == b;
  }
}
