/**
 * One pass of `getdata`'s loop body for one selected row: the scraped Wikipedia mapping and
 * the Facebook record are merged into the row, after the scrape columns have been created
 * up front. The Wikipedia mapping is a parameter (its table lookup is not modelled); the
 * Facebook page is given as its blocks, and the clock reading as `now`.
 */
module Enrichment {
  import opened Wrappers
  import opened Frames
  import opened FacebookScan

  /** The keys of `datatoscrape_wiki`. */
  const WikiKeys: set<string> := {"Students", "Academic staff", "Administrative staff", "Type", "Website"}

  /** The keys of `datatoscrape_fb`. */
  const FbKeys: set<string> := {"fblikes", "fbfollows", "date"}

  /** Lines 100-105: every scrape column exists, `''` where it had to be created. */
  function PrepareColumns(f: Frame): (g: Frame)
    requires f.Valid()
    ensures g.Valid() && g.height == f.height
    ensures g.columns.Keys == f.columns.Keys + WikiKeys + FbKeys
    ensures forall c :: c in f.columns ==> g.columns[c] == f.columns[c]
    ensures forall c, j :: c in WikiKeys + FbKeys && c !in f.columns && 0 <= j < g.height ==>
      g.columns[c][j] == Some("")
  {
    AddMissingColumns(f, WikiKeys + FbKeys)
  }

  /** Neither scraped mapping can be empty-keyed, so both `any(...)` guards of the loop hold. */
  lemma GuardsAlwaysHold(wiki: map<string, Cell>, fb: FbRecord)
    requires wiki.Keys == WikiKeys
    ensures AnyKey(wiki) && AnyKey(Fields(fb))
  {
    assert "Type" in wiki && |"Type"| > 0;
    assert "date" in Fields(fb) && |"date"| > 0;
  }

  /** Lines 110-111 and 114-115: both mappings merged into row `inx`, the Facebook one last. */
  function MergeRow(f: Frame, inx: nat, wiki: map<string, Cell>, fb: FbRecord): (g: Frame)
    requires f.Valid() && inx < f.height && wiki.Keys == WikiKeys
    ensures g.Valid() && g.height == f.height
    ensures g.columns.Keys == f.columns.Keys + WikiKeys + FbKeys
    ensures forall k :: k in WikiKeys ==> g.columns[k][inx] == wiki[k]
    ensures g.columns["fblikes"][inx] == Some(fb.likes)
    ensures g.columns["fbfollows"][inx] == Some(fb.follows)
    ensures g.columns["date"][inx] == Some(fb.date)
    ensures forall c :: c in f.columns && c !in WikiKeys && c !in FbKeys ==> g.columns[c] == f.columns[c]
    ensures forall c, j :: c in f.columns && 0 <= j < g.height && j != inx ==> g.columns[c][j] == f.columns[c][j]
  {
    var g1 := Assign(f, inx, wiki);
    var d := Fields(fb);
    assert d.Keys == FbKeys;
    assert forall k :: k in WikiKeys ==> k !in d;
    Assign(g1, inx, d)
  }

  /**
   * Lines 109-115 for row `inx`: merge the Wikipedia mapping, scan the Facebook page and
   * merge the record. The record is returned too, since the loop passes it on to the next row.
   */
  function EnrichRow(f: Frame, inx: nat, wiki: map<string, Cell>, blocks: seq<Block>, fb: FbRecord, now: string)
    : (res: Result<(Frame, FbRecord), ScanError>)
    requires f.Valid() && inx < f.height && wiki.Keys == WikiKeys
    ensures res.Failure? <==> exists i :: 0 <= i < |blocks| && Fatal(blocks[i])
    ensures res.Success? ==> FbDataAsWritten(blocks, fb, now) == Success(res.value.1)
    ensures res.Success? ==> res.value.1.date == now
    ensures res.Success? ==> res.value.0 == MergeRow(f, inx, wiki, res.value.1)
  {
    GuardsAlwaysHold(wiki, fb);
    match FbDataAsWritten(blocks, fb, now)
    case Failure(e) => Failure(e)
    case Success(fb1) => Success((MergeRow(f, inx, wiki, fb1), fb1))
  }

  /** The same loop step with the corrected Facebook scan, which stamps only a page with a count. */
  function EnrichRowCorrected(f: Frame, inx: nat, wiki: map<string, Cell>, blocks: seq<Block>, fb: FbRecord, now: string)
    : (res: Result<(Frame, FbRecord), ScanError>)
    requires f.Valid() && inx < f.height && wiki.Keys == WikiKeys
    ensures res.Failure? <==> exists i :: 0 <= i < |blocks| && Fatal(blocks[i])
    ensures res.Success? ==> FbData(blocks, fb, now) == Success(res.value.1)
    ensures res.Success? ==> res.value.0 == MergeRow(f, inx, wiki, res.value.1)
  {
    GuardsAlwaysHold(wiki, fb);
    match FbData(blocks, fb, now)
    case Failure(e) => Failure(e)
    case Success(fb1) => Success((MergeRow(f, inx, wiki, fb1), fb1))
  }

  /** After the columns are prepared, enriching a row creates no further column. */
  lemma EnrichPreparedKeepsColumns(f: Frame, inx: nat, wiki: map<string, Cell>, blocks: seq<Block>, fb: FbRecord, now: string)
    requires f.Valid() && inx < f.height && wiki.Keys == WikiKeys
    ensures var res := EnrichRow(PrepareColumns(f), inx, wiki, blocks, fb, now);
      res.Success? ==> res.value.0.columns.Keys == PrepareColumns(f).columns.Keys
  {
  }

  /**
   * A page without a like or follow count leaves the counts as they were, so the row receives
   * the counts of whichever row was scraped before it, under the current date.
   */
  lemma CountlessPageCarriesOver(f: Frame, inx: nat, wiki: map<string, Cell>, blocks: seq<Block>, fb: FbRecord, now: string)
    requires f.Valid() && inx < f.height && wiki.Keys == WikiKeys
    requires forall i :: 0 <= i < |blocks| ==> |blocks[i].innerDivs| > 0 && !Counts(blocks[i])
    ensures EnrichRow(f, inx, wiki, blocks, fb, now).Success?
    ensures EnrichRow(f, inx, wiki, blocks, fb, now).value.1 == fb.(date := now)
  {
  }

  /** With the corrected scan a countless page passes the previous record on whole, date included. */
  lemma CountlessPageCarriesOverCorrected(f: Frame, inx: nat, wiki: map<string, Cell>, blocks: seq<Block>, fb: FbRecord, now: string)
    requires f.Valid() && inx < f.height && wiki.Keys == WikiKeys
    requires forall i :: 0 <= i < |blocks| ==> |blocks[i].innerDivs| > 0 && !Counts(blocks[i])
    ensures EnrichRowCorrected(f, inx, wiki, blocks, fb, now).Success?
    ensures EnrichRowCorrected(f, inx, wiki, blocks, fb, now).value.1 == fb
  {
  }
}
