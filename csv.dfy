/**
 * The CSV loading of initSuitabilityChart: the text is trimmed and cut into
 * lines on "\n", every line into cells on "," (no quoting), the first line is
 * the header, and every further line becomes one record mapping each trimmed
 * header to its trimmed cell; `mean_value` is then parsed as a number.
 */
module Csv {
  import opened JsValues
  import opened Strings

  /**
   * One row object. `fields` maps a trimmed header to its trimmed cell, or to
   * None (`undefined`) when the line has fewer cells than the header;
   * `meanValue` is what `parseFloat` made of the `mean_value` cell.
   */
  datatype Record = Record(fields: map<string, Option<string>>, meanValue: Num)

  /** `obj[key]` for a text field: None when the key is absent or undefined. */
  function Get(r: Record, key: string): Option<string> {
    if key in r.fields then r.fields[key] else None
  }

  /** `r[i]?.trim()` */
  function Cell(cells: seq<string>, i: nat): Option<string> {
    if i < |cells| then Some(Trim(cells[i])) else None
  }

  /** The row object after `headers.forEach` has assigned the first n headers. */
  function FieldsUpTo(headers: seq<string>, cells: seq<string>, n: nat): map<string, Option<string>>
    requires n <= |headers|
  {
    if n == 0 then map[]
    else FieldsUpTo(headers, cells, n - 1)[Trim(headers[n - 1]) := Cell(cells, n - 1)]
  }

  /** `parseFloat(obj.mean_value)`: NaN when the field is missing or undefined. */
  function MeanValue(fields: map<string, Option<string>>, parse: string -> Num): Num {
    if "mean_value" in fields && fields["mean_value"].Some? then parse(fields["mean_value"].value) else NaN
  }

  function MakeRecord(headers: seq<string>, cells: seq<string>, parse: string -> Num): Record {
    var fields := FieldsUpTo(headers, cells, |headers|);
    Record(fields, MeanValue(fields, parse))
  }

  /** `csvText.trim().split("\n")` */
  function Lines(text: string): seq<string> {
    Split(Trim(text), '\n')
  }

  /** The whole parse: one record per line after the header. */
  function ParseCsv(text: string, parse: string -> Num): (records: seq<Record>)
    ensures |records| == Count(Trim(text), '\n')
    ensures forall i :: 0 <= i < |records| ==>
      records[i] == MakeRecord(Split(Lines(text)[0], ','), Split(Lines(text)[i + 1], ','), parse)
  {
    var lines := Lines(text);
    var headers := Split(lines[0], ',');
    seq(|lines| - 1, i requires 0 <= i < |lines| - 1 => MakeRecord(headers, Split(lines[i + 1], ','), parse))
  }

  /** One `rows.map` step: a fresh object filled by `headers.forEach`. */
  method BuildRecord(headers: seq<string>, cells: seq<string>, parse: string -> Num) returns (rec: Record)
    ensures rec == MakeRecord(headers, cells, parse)
  {
    var obj: map<string, Option<string>> := map[];
    var i := 0;
    while i < |headers|
      invariant 0 <= i <= |headers|
      invariant obj == FieldsUpTo(headers, cells, i)
    {
      obj := obj[Trim(headers[i]) := Cell(cells, i)];
      i := i + 1;
    }
    rec := Record(obj, MeanValue(obj, parse));
  }

  /** initSuitabilityChart's parsing, as written: shift off the header, map every other line. */
  method ParseSummary(text: string, parse: string -> Num) returns (records: seq<Record>)
    ensures records == ParseCsv(text, parse)
  {
    var rows := Lines(text);
    var headers := Split(rows[0], ',');
    records := [];
    var i := 1;
    while i < |rows|
      invariant 1 <= i <= |rows|
      invariant |records| == i - 1
      invariant forall k :: 0 <= k < i - 1 ==> records[k] == MakeRecord(headers, Split(rows[k + 1], ','), parse)
    {
      var rec := BuildRecord(headers, Split(rows[i], ','), parse);
      records := records + [rec];
      i := i + 1;
    }
  }

  // ---------------------------------------------------------------------------
  // Properties of the parse
  // ---------------------------------------------------------------------------

  /** The keys of a row object are exactly the trimmed headers. */
  lemma {:induction false} FieldKeys(headers: seq<string>, cells: seq<string>, n: nat)
    requires n <= |headers|
    ensures FieldsUpTo(headers, cells, n).Keys == set i | 0 <= i < n :: Trim(headers[i])
  {
    if n > 0 {
      FieldKeys(headers, cells, n - 1);
      var before := set i | 0 <= i < n - 1 :: Trim(headers[i]);
      var after := set i | 0 <= i < n :: Trim(headers[i]);
      assert after == before + {Trim(headers[n - 1])} by {
        forall x | x in after ensures x in before + {Trim(headers[n - 1])} {
          var i :| 0 <= i < n && x == Trim(headers[i]);
          if i < n - 1 { assert x in before; }
        }
      }
    }
  }

  /**
   * A key takes the cell of the LAST header that trims to it: the trimmed
   * cell at that position, or undefined when the line is shorter.
   */
  lemma {:induction false} LastHeaderWins(headers: seq<string>, cells: seq<string>, n: nat, i: nat)
    requires i < n <= |headers|
    requires forall j :: i < j < n ==> Trim(headers[j]) != Trim(headers[i])
    ensures Trim(headers[i]) in FieldsUpTo(headers, cells, n)
    ensures FieldsUpTo(headers, cells, n)[Trim(headers[i])] == Cell(cells, i)
  {
    if i < n - 1 {
      LastHeaderWins(headers, cells, n - 1, i);
    }
  }

  /** Commas are never escaped: a line with c commas always has c + 1 cells, and the cells rebuild the line. */
  lemma EveryCommaSplits(line: string)
    ensures |Split(line, ',')| == Count(line, ',') + 1
    ensures Join(Split(line, ','), ',') == line
  {
  }
}
