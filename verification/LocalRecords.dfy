/** Locally configured records. */
module LocalRecords {
  import opened Bytes
  import opened Text
  import opened Keys
  import opened Message

  datatype LocalRecord = LocalRecord(name: Bytes, rtype: Bytes, value: Bytes)

  /** The type a lower-case word names, 0 for no known type. */
  function TypeFromString(t: Bytes): u16
  {
    if t == [97] then TYPE_A
    else if t == [97, 97, 97, 97] then TYPE_AAAA
    else if t == [99, 110, 97, 109, 101] then TYPE_CNAME
    else if t == [112, 116, 114] then TYPE_PTR
    else if t == [109, 120] then TYPE_MX
    else if t == [116, 120, 116] then TYPE_TXT
    else 0
  }

  predicate IsKnown(qtype: u16)
  {
    qtype == 1 || qtype == 28 || qtype == 5 || qtype == 12 || qtype == 15 || qtype == 16
  }

  function TypeOf(rec: LocalRecord): u16
  {
    TypeFromString(Lower(rec.rtype))
  }

  /** The record answers queries for this name and type. */
  predicate Answers(rec: LocalRecord, name: Bytes, qtype: u16)
  {
    TypeOf(rec) != 0 && TypeOf(rec) == qtype && Canon(rec.name) == Canon(name)
  }

  /** The last of the configured records that answers. */
  function LastAnswering(records: seq<LocalRecord>, name: Bytes, qtype: u16): Option<LocalRecord>
  {
    if records == [] then None
    else if Answers(records[|records| - 1], name, qtype) then Some(records[|records| - 1])
    else LastAnswering(records[..|records| - 1], name, qtype)
  }

  ghost predicate NoneAnswers(records: seq<LocalRecord>, from: nat, name: Bytes, qtype: u16)
  {
    forall i :: from <= i < |records| ==> !Answers(records[i], name, qtype)
  }

  /** Record `i` answers and no later one does. */
  ghost predicate IsLast(records: seq<LocalRecord>, i: nat, name: Bytes, qtype: u16)
  {
    i < |records| && Answers(records[i], name, qtype) && NoneAnswers(records, i + 1, name, qtype)
  }

  /** One more record, which does not answer, changes nothing. */
  lemma Passing(records: seq<LocalRecord>, from: nat, name: Bytes, qtype: u16)
    requires records != [] && !Answers(records[|records| - 1], name, qtype)
    requires NoneAnswers(records[..|records| - 1], from, name, qtype)
    ensures NoneAnswers(records, from, name, qtype)
  {
    var before := records[..|records| - 1];
    assert forall i :: 0 <= i < |before| ==> before[i] == records[i];
  }

  lemma {:induction false} LastFound(records: seq<LocalRecord>, name: Bytes, qtype: u16) returns (i: nat)
    ensures match LastAnswering(records, name, qtype)
            case None => NoneAnswers(records, 0, name, qtype)
            case Some(r) => IsLast(records, i, name, qtype) && records[i] == r
  {
    if records == [] {
      i := 0;
    } else if Answers(records[|records| - 1], name, qtype) {
      i := |records| - 1;
    } else {
      i := LastFound(records[..|records| - 1], name, qtype);
      Passing(records, if LastAnswering(records, name, qtype).Some? then i + 1 else 0, name, qtype);
    }
  }

  /** LastAnswering is the record that answers with none that does behind it; there is none exactly if
      no record answers. */
  lemma LastAnsweringIff(records: seq<LocalRecord>, name: Bytes, qtype: u16, r: LocalRecord)
    ensures LastAnswering(records, name, qtype) == Some(r) <==>
            exists i: nat :: IsLast(records, i, name, qtype) && records[i] == r
    ensures LastAnswering(records, name, qtype) == None <==> NoneAnswers(records, 0, name, qtype)
  {
    var k := LastFound(records, name, qtype);
    if i: nat :| IsLast(records, i, name, qtype) && records[i] == r {
      assert LastAnswering(records, name, qtype).Some? && i == k;
    }
  }

  /** A record answers queries of one of six types, named in any case, for its name up to case and one
      trailing dot. */
  lemma AnswersIff(rec: LocalRecord, name: Bytes, qtype: u16)
    ensures Answers(rec, name, qtype) <==>
            SameLetters(Undotted(rec.name), Undotted(name)) &&
            var t := Lower(rec.rtype);
            || (qtype == 1 && t == Ascii("a")) || (qtype == 28 && t == Ascii("aaaa"))
            || (qtype == 5 && t == Ascii("cname")) || (qtype == 12 && t == Ascii("ptr"))
            || (qtype == 15 && t == Ascii("mx")) || (qtype == 16 && t == Ascii("txt"))
  {
    CanonIff(rec.name, name);
    assert Ascii("a") == [97] && Ascii("aaaa") == [97, 97, 97, 97] && Ascii("cname") == [99, 110, 97, 109, 101];
    assert Ascii("ptr") == [112, 116, 114] && Ascii("mx") == [109, 120] && Ascii("txt") == [116, 120, 116];
  }

  /** The table holds, under every key, the last record that answers it. */
  ghost predicate Holds(table: map<Bytes, LocalRecord>, records: seq<LocalRecord>)
  {
    forall name, qtype: u16 ::
      (if Key(name, qtype) in table then Some(table[Key(name, qtype)]) else None) ==
      LastAnswering(records, name, qtype)
  }

  lemma HoldsSkip(table: map<Bytes, LocalRecord>, records: seq<LocalRecord>, rec: LocalRecord)
    requires Holds(table, records) && TypeOf(rec) == 0
    ensures Holds(table, records + [rec])
  {
    assert (records + [rec])[..|records|] == records;
  }

  lemma HoldsAdd(table: map<Bytes, LocalRecord>, records: seq<LocalRecord>, rec: LocalRecord)
    requires Holds(table, records) && TypeOf(rec) != 0
    ensures Holds(table[Key(rec.name, TypeOf(rec)) := rec], records + [rec])
  {
    assert (records + [rec])[..|records|] == records;
    forall name, qtype: u16
      ensures Key(name, qtype) == Key(rec.name, TypeOf(rec)) <==> Answers(rec, name, qtype)
    {
      KeyInjective(name, qtype, rec.name, TypeOf(rec));
    }
  }

  class LocalRecords {
    var table: map<Bytes, LocalRecord>
    ghost var loaded: seq<LocalRecord>

    ghost predicate Valid()
      reads this
    {
      Holds(table, loaded)
    }

    constructor ()
      ensures Valid() && loaded == []
    {
      table, loaded := map[], [];
    }

    method Load(records: seq<LocalRecord>)
      modifies this
      ensures Valid() && loaded == records
    {
      table, loaded := map[], [];
      for i := 0 to |records|
        invariant Valid() && loaded == records[..i]
      {
        var rec := records[i];
        assert records[..i + 1] == records[..i] + [rec];
        loaded := records[..i + 1];
        var lowered := ToLower(rec.rtype);
        var qtype := TypeFromString(lowered);
        if qtype == 0 {
          HoldsSkip(table, records[..i], rec);
          continue;
        }
        HoldsAdd(table, records[..i], rec);
        var key := MakeKey(rec.name, qtype);
        table := table[key := rec];
      }
      assert records[..|records|] == records;
    }

    /** The value of the last configured record for the name and type, and that type. */
    method Resolve(name: Bytes, qtype: u16) returns (found: bool, value: Bytes, rtype: u16)
      requires Valid()
      ensures var r := LastAnswering(loaded, name, qtype);
              found == r.Some? && (found ==> value == r.value.value && rtype == qtype)
    {
      found, value, rtype := false, [], 0;
      var key := MakeKey(name, qtype);
      assert key == Key(name, qtype);
      if key !in table {
        return;
      }
      found, value, rtype := true, table[key].value, qtype;
    }
  }
}
