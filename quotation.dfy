/**
  `extract_product_specs`: the scan over the rows of the quotation sheet
  that looks for the header row and reads the product from the row after
  it.
 */
module Quotation {
  import opened Text

  /** A sheet row: every cell as text, an empty cell as "". */
  type Row = seq<string>

  /** The `specs` dictionary. */
  datatype Specs = Specs(productName: string, dimensions: string, weight: string,
                         material: string, price: string, spec: string)

  const NotAvailable := "N/A"

  /** The dictionary before any row is read. */
  const Defaults := Specs(NotAvailable, NotAvailable, NotAvailable, NotAvailable, NotAvailable, NotAvailable)

  /** The "product name" label looked for in the fourth column. */
  const ProductNameLabel := "\U{C81C}\U{D488}\U{BA85}"

  /** The "supply price" label looked for in the eighth column. */
  const SupplyPriceLabel := "\U{ACF5}\U{AE09}\U{AC00}"

  /** The multiplication sign that sizes are written with. */
  const TimesSign := '\U{D7}'

  /** The header test reads the eighth cell only once the fourth holds the
      label; a row shorter than that would make it fail. */
  predicate HeaderCheckSafe(row: Row) {
    |row| > 3 && Contains(row[3], ProductNameLabel) ==> |row| > 7
  }

  /** The header test: the product-name label occurs somewhere in the
      fourth cell and the supply-price label somewhere in the eighth. A
      shorter row is never a header (when its fourth cell holds the label,
      the test fails instead, which `HeaderCheckSafe` rules out). */
  predicate IsHeader(row: Row)
    ensures IsHeader(row) <==>
              |row| > 7 && (exists i :: OccursAt(row[3], ProductNameLabel, i))
              && (exists i :: OccursAt(row[7], SupplyPriceLabel, i))
  {
    if |row| > 7 then
      ContainsAt(row[3], ProductNameLabel);
      ContainsAt(row[7], SupplyPriceLabel);
      Contains(row[3], ProductNameLabel) && Contains(row[7], SupplyPriceLabel)
    else false
  }

  /** The fields the data row fills: name, size (with `×` made `x`),
      price and specification. */
  function FromRow(row: Row): (s: Specs)
    requires |row| > 8
    ensures TimesSign !in s.dimensions
    ensures s.weight == NotAvailable && s.material == NotAvailable
  {
    Defaults.(productName := row[3], dimensions := ReplaceChar(row[5], TimesSign, 'x'),
              price := row[7], spec := row[8])
  }

  /** The scan reads only cells that exist: every header test it makes is
      safe, and the data row it stops at has nine cells or more. */
  predicate ScanSafe(rows: seq<Row>, found: bool)
    decreases |rows|
  {
    rows == [] ||
    (HeaderCheckSafe(rows[0]) &&
     if IsHeader(rows[0]) then ScanSafe(rows[1..], true)
     else if found then |rows[0]| > 8
     else ScanSafe(rows[1..], false))
  }

  /** What the loop ends with, from the rows still to read and whether a
      header has been seen. Weight and material are never read from the
      sheet, and the size never keeps a multiplication sign. */
  function Scan(rows: seq<Row>, found: bool): (r: Specs)
    requires ScanSafe(rows, found)
    ensures r.weight == NotAvailable && r.material == NotAvailable
    ensures TimesSign !in r.dimensions
    decreases |rows|
  {
    if rows == [] then Defaults
    else if IsHeader(rows[0]) then Scan(rows[1..], true)
    else if found then FromRow(rows[0])
    else Scan(rows[1..], false)
  }

  /** `extract_product_specs`. */
  method ExtractProductSpecs(quotationData: seq<Row>) returns (specs: Specs)
    requires ScanSafe(quotationData, false)
    ensures specs == Scan(quotationData, false)
  {
    specs := Defaults;
    var foundHeader := false;
    for i := 0 to |quotationData|
      invariant ScanSafe(quotationData[i..], foundHeader)
      invariant Scan(quotationData[i..], foundHeader) == Scan(quotationData, false)
      invariant specs == Defaults
    {
      var row := quotationData[i];
      assert quotationData[i..][0] == row;
      assert quotationData[i..][1..] == quotationData[i + 1..];
      if |row| > 3 && Contains(row[3], ProductNameLabel) && Contains(row[7], SupplyPriceLabel) {
        foundHeader := true;
        continue;
      }
      if foundHeader {
        specs := specs.(productName := row[3]);
        specs := specs.(dimensions := ReplaceChar(row[5], TimesSign, 'x'));
        specs := specs.(price := row[7]);
        specs := specs.(spec := row[8]);
        break;
      }
    }
  }

  // ---------------------------------------------------------------------
  // Properties of the scan

  /** Rows before any header are passed over. */
  lemma {:induction false} SkipBeforeHeader(pre: seq<Row>, rest: seq<Row>)
    requires forall k :: 0 <= k < |pre| ==> HeaderCheckSafe(pre[k]) && !IsHeader(pre[k])
    ensures ScanSafe(pre + rest, false) <==> ScanSafe(rest, false)
    ensures ScanSafe(rest, false) ==> Scan(pre + rest, false) == Scan(rest, false)
    decreases |pre|
  {
    if pre != [] {
      assert (pre + rest)[0] == pre[0];
      assert (pre + rest)[1..] == pre[1..] + rest;
      SkipBeforeHeader(pre[1..], rest);
    } else {
      assert pre + rest == rest;
    }
  }

  /** Header rows are passed over, and afterwards a header has been seen. */
  lemma {:induction false} SkipHeaders(hs: seq<Row>, rest: seq<Row>, found: bool)
    requires forall k :: 0 <= k < |hs| ==> IsHeader(hs[k])
    ensures ScanSafe(hs + rest, found) <==> ScanSafe(rest, found || hs != [])
    ensures ScanSafe(rest, found || hs != []) ==> Scan(hs + rest, found) == Scan(rest, found || hs != [])
    decreases |hs|
  {
    if hs != [] {
      assert (hs + rest)[0] == hs[0];
      assert (hs + rest)[1..] == hs[1..] + rest;
      SkipHeaders(hs[1..], rest, true);
    } else {
      assert hs + rest == rest;
    }
  }

  /** Without a data row after a header (plain rows, then nothing but header
      rows, possibly none), every field keeps its default. */
  lemma NoDataRowGivesDefaults(pre: seq<Row>, hs: seq<Row>)
    requires forall k :: 0 <= k < |pre| ==> HeaderCheckSafe(pre[k]) && !IsHeader(pre[k])
    requires forall k :: 0 <= k < |hs| ==> IsHeader(hs[k])
    ensures ScanSafe(pre + hs, false) && Scan(pre + hs, false) == Defaults
  {
    SkipBeforeHeader(pre, hs);
    assert hs + [] == hs;
    SkipHeaders(hs, [], false);
  }

  /** The first row after the header (after a run of header rows) fills the
      fields, and no row after it is read. */
  lemma FirstRowAfterHeader(pre: seq<Row>, hs: seq<Row>, data: Row, post: seq<Row>)
    requires forall k :: 0 <= k < |pre| ==> HeaderCheckSafe(pre[k]) && !IsHeader(pre[k])
    requires hs != [] && forall k :: 0 <= k < |hs| ==> IsHeader(hs[k])
    requires HeaderCheckSafe(data) && !IsHeader(data) && |data| > 8
    ensures ScanSafe(pre + hs + [data] + post, false)
    ensures Scan(pre + hs + [data] + post, false) == FromRow(data)
  {
    var rest := [data] + post;
    assert pre + hs + [data] + post == pre + (hs + rest);
    assert rest[0] == data;
    SkipHeaders(hs, rest, false);
    SkipBeforeHeader(pre, hs + rest);
  }
}
