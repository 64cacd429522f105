/** The CSV conversion (src/process/csv_convert.rs): every data record is zipped with
    the header row into one key/value object, and the list of objects is handed to the
    JSON or YAML serialiser. The reader is represented by what it yields: the header
    row and the records, each possibly an error. */
module CsvConvert {
  import opened Wrappers
  import CsvOpt

  type Record = seq<string>

  /** A JSON object with string values. */
  type Object = map<string, string>

  /** An error reported by the CSV reader. */
  datatype CsvError = CsvError(message: string)

  /** What the selected serialiser receives: the output format and the objects. */
  datatype Document = Document(format: CsvOpt.OutputFormat, objects: seq<Object>)

  function Min(a: nat, b: nat): nat {
    if a <= b then a else b
  }

  /** `header.iter().zip(record.iter())`: the i-th header with the i-th field, stopping
      at the shorter of the two. */
  function Zip(header: Record, record: Record): (pairs: seq<(string, string)>)
    ensures |pairs| == Min(|header|, |record|)
    ensures forall i :: 0 <= i < |pairs| ==> pairs[i] == (header[i], record[i])
  {
    seq(Min(|header|, |record|), i requires 0 <= i < Min(|header|, |record|) => (header[i], record[i]))
  }

  /** Collecting pairs into a JSON object: inserted in order, so a later pair replaces
      an earlier one with the same key. */
  function ToObject(pairs: seq<(string, string)>): (obj: Object)
    ensures obj.Keys == set i | 0 <= i < |pairs| :: pairs[i].0
  {
    if |pairs| == 0 then map[]
    else
      var init := pairs[..|pairs| - 1];
      var last := pairs[|pairs| - 1];
      KeysOfSnoc(init, last);
      assert init + [last] == pairs;
      ToObject(init)[last.0 := last.1]
  }

  /** The keys of `pairs + [last]` are those of `pairs` and the key of `last`. */
  lemma KeysOfSnoc(pairs: seq<(string, string)>, last: (string, string))
    ensures (set i | 0 <= i < |pairs + [last]| :: (pairs + [last])[i].0)
         == (set i | 0 <= i < |pairs| :: pairs[i].0) + {last.0}
  {
    var all := pairs + [last];
    assert all[|pairs|].0 == last.0;
    forall i | 0 <= i < |pairs|
      ensures all[i].0 == pairs[i].0
    {
    }
  }

  /** A key is in the object exactly when some pair carries it, and its value is the one
      of the last pair that does. */
  lemma {:induction false} ToObjectLookup(pairs: seq<(string, string)>, k: string)
    ensures k in ToObject(pairs) <==> exists i :: 0 <= i < |pairs| && pairs[i].0 == k
    ensures forall i :: 0 <= i < |pairs| && pairs[i].0 == k
                        && (forall j :: i < j < |pairs| ==> pairs[j].0 != k)
                        ==> k in ToObject(pairs) && ToObject(pairs)[k] == pairs[i].1
    decreases |pairs|
  {
    if |pairs| > 0 {
      var init := pairs[..|pairs| - 1];
      ToObjectLookup(init, k);
      assert forall i :: 0 <= i < |init| ==> init[i] == pairs[i];
      if pairs[|pairs| - 1].0 != k {
        assert (exists i :: 0 <= i < |pairs| && pairs[i].0 == k) <==> (exists i :: 0 <= i < |init| && init[i].0 == k);
      }
    }
  }

  /** The object one record becomes: its keys are the headers that have a field
      beside them. */
  function Row(header: Record, record: Record): (obj: Object)
    ensures obj.Keys == set i | 0 <= i < Min(|header|, |record|) :: header[i]
  {
    var pairs := Zip(header, record);
    assert (set i | 0 <= i < |pairs| :: pairs[i].0) == set i | 0 <= i < Min(|header|, |record|) :: header[i];
    ToObject(pairs)
  }

  /** The keys of a record's object are the headers that have a field beside them. */
  lemma RowKeys(header: Record, record: Record, k: string)
    ensures k in Row(header, record) <==> exists i :: 0 <= i < |header| && i < |record| && header[i] == k
  {
    ToObjectLookup(Zip(header, record), k);
    var pairs := Zip(header, record);
    if k in Row(header, record) {
      var i :| 0 <= i < |pairs| && pairs[i].0 == k;
      assert header[i] == k;
    }
  }

  /** A header's value is the field under its last occurrence among the zipped columns. */
  lemma RowValue(header: Record, record: Record, i: nat)
    requires i < |header| && i < |record|
    requires forall j :: i < j < Min(|header|, |record|) ==> header[j] != header[i]
    ensures header[i] in Row(header, record) && Row(header, record)[header[i]] == record[i]
  {
    ToObjectLookup(Zip(header, record), header[i]);
  }

  /** With distinct headers every zipped column keeps its own field. */
  lemma RowDistinct(header: Record, record: Record)
    requires forall i, j :: 0 <= i < j < |header| ==> header[i] != header[j]
    ensures forall i :: 0 <= i < |header| && i < |record| ==>
      header[i] in Row(header, record) && Row(header, record)[header[i]] == record[i]
  {
    forall i | 0 <= i < |header| && i < |record|
      ensures header[i] in Row(header, record) && Row(header, record)[header[i]] == record[i]
    {
      RowValue(header, record, i);
    }
  }

  /** `process_csv` up to serialisation. A reader error on the header or on any record
      aborts with that error; otherwise there is one object per record, in record
      order, and the header row is never turned into an object. */
  method ProcessCsv(header: Result<Record, CsvError>, records: seq<Result<Record, CsvError>>,
                    format: CsvOpt.OutputFormat)
    returns (r: Result<Document, CsvError>)
    ensures header.Err? ==> r == Err(header.error)
    ensures header.Ok? ==> (r.Ok? <==> forall i :: 0 <= i < |records| ==> records[i].Ok?)
    ensures header.Ok? && r.Err? ==>
      exists i :: 0 <= i < |records| && records[i] == Err(r.error)
                  && forall j :: 0 <= j < i ==> records[j].Ok?
    ensures r.Ok? ==> r.value.format == format && |r.value.objects| == |records|
    ensures r.Ok? ==> forall i :: 0 <= i < |records| ==>
      records[i].Ok? && r.value.objects[i] == Row(header.value, records[i].value)
  {
    if header.Err? {
      return Err(header.error);
    }
    var h := header.value;
    var result: seq<Object> := [];
    var n := 0;
    while n < |records|
      invariant 0 <= n <= |records| && |result| == n
      invariant forall i :: 0 <= i < n ==> records[i].Ok? && result[i] == Row(h, records[i].value)
    {
      if records[n].Err? {
        return Err(records[n].error);
      }
      result := result + [Row(h, records[n].value)];
      n := n + 1;
    }
    r := Ok(Document(format, result));
  }
}
