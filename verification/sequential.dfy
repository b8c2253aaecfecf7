/**
 The single-threaded reference traversal: every entry is rebuilt field by
 field with a fresh copy of its description, and the size of each
 description is reported. It is the oracle the divide-and-conquer processor
 is compared against.
 */
module SequentialProcessor {
  import opened CatalogEntry
  import CatalogProcessor

  /** The per-item report of the traversal: the product and the number of
      lines in its description. */
  datatype SizeReport = SizeReport(productName: string, descriptionSize: nat)

  /** What one traversal produces: the rebuilt entries and, in the same order,
      one report per entry. */
  datatype SequentialRun = SequentialRun(entries: seq<Entry>, reports: seq<SizeReport>)

  /** A new entry built from the six fields of `item`. The source gives it a
      fresh copy of the description list; a Dafny sequence is a value, so the
      copy is the description itself and only value equality is stated. */
  function Rebuild(item: Entry): (copy: Entry)
    ensures copy == item
  {
    Entry(item.productName, item.unitOfMeasure, item.quantity, item.unitPrice,
          item.arrivalDate, item.description)
  }

  /** The traversal, one item after the other in catalog order. */
  function ProcessSequentially(catalog: seq<Entry>): (run: SequentialRun)
    ensures |run.entries| == |catalog| == |run.reports|
    ensures forall i :: 0 <= i < |catalog| ==>
              && run.entries[i].productName == catalog[i].productName
              && run.entries[i].unitOfMeasure == catalog[i].unitOfMeasure
              && run.entries[i].quantity == catalog[i].quantity
              && run.entries[i].unitPrice == catalog[i].unitPrice
              && run.entries[i].arrivalDate == catalog[i].arrivalDate
              && run.entries[i].description == catalog[i].description
    ensures forall i :: 0 <= i < |catalog| ==>
              run.reports[i] == SizeReport(catalog[i].productName, |catalog[i].description|)
    decreases |catalog|
  {
    if |catalog| == 0 then SequentialRun([], [])
    else
      var done := ProcessSequentially(catalog[..|catalog| - 1]);
      var item := catalog[|catalog| - 1];
      var size := |item.description|;
      SequentialRun(done.entries + [Rebuild(item)],
                    done.reports + [SizeReport(item.productName, size)])
  }

  /** Rebuilding loses nothing: the traversal's entries are the catalog. */
  lemma SequentialIsCopy(catalog: seq<Entry>)
    ensures ProcessSequentially(catalog).entries == catalog
  {
    var run := ProcessSequentially(catalog);
    assert forall i :: 0 <= i < |catalog| ==> run.entries[i] == catalog[i];
  }

  /** The divide-and-conquer processor and the reference traversal agree, entry
      by entry, on every catalog. */
  lemma ParallelMatchesSequential(catalog: seq<Entry>)
    ensures CatalogProcessor.ProcessCatalogInParallel(catalog)
         == ProcessSequentially(catalog).entries
  {
    SequentialIsCopy(catalog);
  }

  /** The agreement for every leaf size of at least 1, not only the fixed one. */
  lemma AnyThresholdMatchesSequential(catalog: seq<Entry>, threshold: nat)
    requires threshold >= 1
    ensures CatalogProcessor.Compute(catalog, threshold, 0, |catalog|)
         == ProcessSequentially(catalog).entries
  {
    SequentialIsCopy(catalog);
    assert catalog[0..|catalog|] == catalog;
  }
}
