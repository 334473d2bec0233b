/**
 * Filing resolution (`get_potential_spacs_from_cik`): a filer's recent
 * filing history is four parallel arrays; the positions whose form names
 * an S-1 registration become fresh `SPAC` records with empty name, ticker
 * and content, a long-form date and a link to the primary document. The
 * HTTP GET and JSON decoding are not modelled: the decoded arrays are the
 * input, and `SubmissionsUrl` gives the address they are fetched from.
 */
module Resolver {
  import opened Wrappers
  import Text
  import Dates
  import Discovery
  import opened Records

  /** `filings.recent` of the submissions JSON: parallel arrays indexed by position. */
  datatype FilingHistory = FilingHistory(
    accessionNumbers: seq<string>,
    forms: seq<string>,
    primaryDocuments: seq<string>,
    filingDates: seq<string>)

  /** How many positions `zip` visits: it stops at the shortest of the four arrays. */
  function ZipLength(h: FilingHistory): (n: nat)
    ensures n <= |h.accessionNumbers| && n <= |h.forms| && n <= |h.primaryDocuments| && n <= |h.filingDates|
    ensures n == |h.accessionNumbers| || n == |h.forms| || n == |h.primaryDocuments| || n == |h.filingDates|
  {
    var a := if |h.accessionNumbers| <= |h.forms| then |h.accessionNumbers| else |h.forms|;
    var b := if |h.primaryDocuments| <= |h.filingDates| then |h.primaryDocuments| else |h.filingDates|;
    if a <= b then a else b
  }

  const RegistrationForm := "S-1"

  /** `'S-1' in form`: the form type names an S-1 registration statement (S-1, S-1/A, ...). */
  predicate IsRegistration(form: string)
  {
    Text.Contains(RegistrationForm, form)
  }

  /** The segments of the archive address every document link starts with. */
  const ArchivePath: seq<string> := ["https:", "", "www.sec.gov", "Archives", "edgar", "data"]

  /** The archive address, `https://www.sec.gov/Archives/edgar/data/`. */
  const ArchiveRoot: string := Text.Join(ArchivePath, '/') + "/"

  /** The primary document's address: filer id, accession number without dashes, document name. */
  function DocumentLink(cik: string, accession: string, document: string): string
  {
    ArchiveRoot + cik + "/" + Text.Remove(accession, '-') + "/" + document
  }

  /**
   * A document link splits on `'/'` into the archive path, the filer id,
   * the dash-free accession number and the document name; so the filer id
   * sits in segment 6, where filer discovery reads it.
   */
  lemma {:induction false} LinkSegments(cik: string, accession: string, document: string)
    requires '/' !in cik && '/' !in accession && '/' !in document
    ensures Text.Split(DocumentLink(cik, accession, document), '/') ==
      ArchivePath + [cik, Text.Remove(accession, '-'), document]
    ensures '-' !in Text.Split(DocumentLink(cik, accession, document), '/')[7]
  {
    var stripped := Text.Remove(accession, '-');
    Text.RemoveKeepsOthers(accession, '-');
    var parts := ArchivePath + [cik, stripped, document];
    LinkIsJoin(cik, stripped, document);
    ArchivePathHasNoSlash();
    assert forall i :: 0 <= i < |parts| ==> '/' !in parts[i];
    Text.SplitJoin(parts, '/');
  }

  lemma ArchivePathHasNoSlash()
    ensures forall i :: 0 <= i < |ArchivePath| ==> '/' !in ArchivePath[i]
  {
    forall i | 0 <= i < |ArchivePath| ensures '/' !in ArchivePath[i] {
      var segment := ArchivePath[i];
      assert forall k :: 0 <= k < |segment| ==> segment[k] != '/';
    }
  }

  lemma LinkIsJoin(cik: string, stripped: string, document: string)
    ensures ArchiveRoot + cik + "/" + stripped + "/" + document == Text.Join(ArchivePath + [cik, stripped, document], '/')
  {
    JoinOfThree(cik, stripped, document);
    Text.JoinAppend(ArchivePath, [cik, stripped, document], '/');
    var root := Text.Join(ArchivePath, '/');
    assert root + "/" + cik + "/" + stripped + "/" + document == root + "/" + (cik + "/" + (stripped + "/" + document));
  }

  lemma JoinOfThree(a: string, b: string, c: string)
    ensures Text.Join([a, b, c], '/') == a + "/" + (b + "/" + c)
  {
    var parts := [a, b, c];
    assert parts[1..] == [b, c] && parts[2..] == [c];
    assert Text.Join(parts[2..], '/') == c;
    assert Text.Join(parts[1..], '/') == b + "/" + c;
  }

  /** Filer discovery applied to a document link recovers the filer id the link was built from. */
  lemma LinkNamesItsFiler(cik: string, accession: string, document: string)
    requires '/' !in cik
    ensures Discovery.CiksFromHrefs([DocumentLink(cik, accession, document)]) == Some({cik})
  {
    var link := DocumentLink(cik, accession, document);
    var stripped := Text.Remove(accession, '-');
    var parts := ArchivePath + [cik, stripped, document];
    LinkIsJoin(cik, stripped, document);
    ArchivePathHasNoSlash();
    Text.SplitJoinPrefix(parts, 7, '/');
    assert parts[..7][6] == cik;
    assert Discovery.FilerIdOf([link][0]) == cik;
    assert Discovery.CiksFromHrefs([link]).value == {cik};
  }

  /** Python's `s.zfill(width)`: left-pad with zeros to `width`, keeping a leading sign in front. */
  function ZFill(s: string, width: nat): (r: string)
    ensures |r| == if |s| >= width then |s| else width
  {
    if |s| >= width then s
    else
      var zeros := seq(width - |s|, _ => '0');
      if s != [] && (s[0] == '+' || s[0] == '-') then [s[0]] + zeros + s[1..] else zeros + s
  }

  function DropLeadingZeros(s: string): string
  {
    if s != [] && s[0] == '0' then DropLeadingZeros(s[1..]) else s
  }

  /** Zero-filling an unsigned filer id keeps its numeric value. */
  lemma ZFillKeepsValue(s: string, width: nat)
    requires s == [] || (s[0] != '+' && s[0] != '-')
    ensures DropLeadingZeros(ZFill(s, width)) == DropLeadingZeros(s)
  {
    if |s| < width {
      var zeros := seq(width - |s|, _ => '0');
      DropZerosPrefix(zeros, s);
    }
  }

  lemma {:induction false} DropZerosPrefix(zeros: string, s: string)
    requires forall k :: 0 <= k < |zeros| ==> zeros[k] == '0'
    ensures DropLeadingZeros(zeros + s) == DropLeadingZeros(s)
  {
    if zeros != [] {
      DropZerosPrefix(zeros[1..], s);
      assert (zeros + s)[1..] == zeros[1..] + s;
    } else {
      assert zeros + s == s;
    }
  }

  /** Where the filer's submissions JSON is fetched from. */
  function SubmissionsUrl(cik: string): string
  {
    SubmissionsRoot + ZFill(cik, IdWidth) + ".json"
  }

  const SubmissionsRoot: string := "https://data.sec.gov/submissions/CIK"
  const IdWidth: nat := 10

  /**
   * The submissions address holds the filer id between its fixed root and
   * `.json`, zero-filled to ten characters: the id segment names the same
   * number as the filer id.
   */
  lemma SubmissionsUrlNamesFiler(cik: string)
    requires cik == [] || (cik[0] != '+' && cik[0] != '-')
    ensures var u := SubmissionsUrl(cik);
      |u| == |SubmissionsRoot| + (if |cik| >= IdWidth then |cik| else IdWidth) + 5 &&
      u[..|SubmissionsRoot|] == SubmissionsRoot && u[|u| - 5..] == ".json" &&
      DropLeadingZeros(u[|SubmissionsRoot|..|u| - 5]) == DropLeadingZeros(cik)
  {
    var z := ZFill(cik, IdWidth);
    var u := SubmissionsUrl(cik);
    assert u[|SubmissionsRoot|..|u| - 5] == z;
    ZFillKeepsValue(cik, IdWidth);
  }

  /** The positions below `n` whose form is an S-1 registration, in order. */
  function SelectedBelow(h: FilingHistory, n: nat): (sel: seq<nat>)
    requires n <= ZipLength(h)
    ensures forall j :: 0 <= j < |sel| ==> sel[j] < n
  {
    if n == 0 then []
    else SelectedBelow(h, n - 1) + (if IsRegistration(h.forms[n - 1]) then [n - 1] else [])
  }

  function Selected(h: FilingHistory): seq<nat>
  {
    SelectedBelow(h, ZipLength(h))
  }

  /**
   * The selection holds exactly the positions that `zip` visits and whose
   * form contains "S-1", each once, in increasing order.
   */
  lemma {:induction false} SelectedBelowSpec(h: FilingHistory, n: nat)
    requires n <= ZipLength(h)
    ensures forall k: nat :: k in SelectedBelow(h, n) <==> k < n && IsRegistration(h.forms[k])
    ensures forall a, b :: 0 <= a < b < |SelectedBelow(h, n)| ==> SelectedBelow(h, n)[a] < SelectedBelow(h, n)[b]
  {
    if n > 0 {
      SelectedBelowSpec(h, n - 1);
      var prev := SelectedBelow(h, n - 1);
      if IsRegistration(h.forms[n - 1]) {
        assert SelectedBelow(h, n) == prev + [n - 1];
      } else {
        assert SelectedBelow(h, n) == prev;
      }
    }
  }

  /** The record built for an S-1 position, or `None` where its date does not parse. */
  function CandidateAt(cik: string, h: FilingHistory, k: nat): Option<SpacValue>
    requires k < ZipLength(h)
  {
    match Dates.Reformat(h.filingDates[k])
    case None => None
    case Some(date) => Some(SpacValue("", "", date, DocumentLink(cik, h.accessionNumbers[k], h.primaryDocuments[k]), []))
  }

  /**
   * The records the loop has built after visiting the first `n` positions;
   * `None` once a selected position's date has raised.
   */
  function PotentialBelow(cik: string, h: FilingHistory, n: nat): Option<seq<SpacValue>>
    requires n <= ZipLength(h)
  {
    if n == 0 then Some([])
    else
      match PotentialBelow(cik, h, n - 1)
      case None => None
      case Some(built) =>
        if !IsRegistration(h.forms[n - 1]) then Some(built)
        else
          match CandidateAt(cik, h, n - 1)
          case None => None
          case Some(v) => Some(built + [v])
  }

  /** What `get_potential_spacs_from_cik` returns, `None` where it raises. */
  function Potential(cik: string, h: FilingHistory): Option<seq<SpacValue>>
  {
    PotentialBelow(cik, h, ZipLength(h))
  }

  /** Every selected position's date parses. */
  predicate AllCandidates(cik: string, h: FilingHistory, sel: seq<nat>)
    requires forall j :: 0 <= j < |sel| ==> sel[j] < ZipLength(h)
  {
    forall j :: 0 <= j < |sel| ==> CandidateAt(cik, h, sel[j]).Some?
  }

  /** `built` holds the record of each selected position, in order. */
  predicate BuiltFrom(cik: string, h: FilingHistory, sel: seq<nat>, built: seq<SpacValue>)
    requires forall j :: 0 <= j < |sel| ==> sel[j] < ZipLength(h)
  {
    |built| == |sel| && forall j :: 0 <= j < |sel| ==> CandidateAt(cik, h, sel[j]) == Some(built[j])
  }

  /** Selecting one more position extends both predicates by that position alone. */
  lemma AppendSelected(cik: string, h: FilingHistory, prev: seq<nat>, k: nat, built: seq<SpacValue>)
    requires forall j :: 0 <= j < |prev| ==> prev[j] < ZipLength(h)
    requires k < ZipLength(h)
    ensures AllCandidates(cik, h, prev + [k]) <==> AllCandidates(cik, h, prev) && CandidateAt(cik, h, k).Some?
    ensures BuiltFrom(cik, h, prev, built) && CandidateAt(cik, h, k).Some? ==>
      BuiltFrom(cik, h, prev + [k], built + [CandidateAt(cik, h, k).value])
  {
    var sel := prev + [k];
    if AllCandidates(cik, h, sel) {
      forall j | 0 <= j < |prev| ensures CandidateAt(cik, h, prev[j]).Some? {
        assert sel[j] == prev[j];
      }
      assert sel[|prev|] == k;
    }
    if AllCandidates(cik, h, prev) && CandidateAt(cik, h, k).Some? {
      forall j | 0 <= j < |sel| ensures CandidateAt(cik, h, sel[j]).Some? {
        if j < |prev| {
          assert sel[j] == prev[j];
        }
      }
    }
    if BuiltFrom(cik, h, prev, built) && CandidateAt(cik, h, k).Some? {
      var ext := built + [CandidateAt(cik, h, k).value];
      forall j | 0 <= j < |sel| ensures CandidateAt(cik, h, sel[j]) == Some(ext[j]) {
        if j < |prev| {
          assert sel[j] == prev[j] && ext[j] == built[j];
        }
      }
    }
  }

  /**
   * The resolver succeeds exactly when every selected position's date
   * parses, and then returns one record per selected position, in order.
   */
  lemma {:induction false} PotentialMatchesSelection(cik: string, h: FilingHistory, n: nat)
    requires n <= ZipLength(h)
    ensures PotentialBelow(cik, h, n).Some? <==> AllCandidates(cik, h, SelectedBelow(h, n))
    ensures PotentialBelow(cik, h, n).Some? ==> BuiltFrom(cik, h, SelectedBelow(h, n), PotentialBelow(cik, h, n).value)
  {
    if n > 0 {
      PotentialMatchesSelection(cik, h, n - 1);
      PotentialStep(cik, h, n);
    }
  }

  /** The step of `PotentialMatchesSelection`: from the first `n - 1` positions to the first `n`. */
  lemma PotentialStep(cik: string, h: FilingHistory, n: nat)
    requires 0 < n <= ZipLength(h)
    requires PotentialBelow(cik, h, n - 1).Some? <==> AllCandidates(cik, h, SelectedBelow(h, n - 1))
    requires PotentialBelow(cik, h, n - 1).Some? ==>
      BuiltFrom(cik, h, SelectedBelow(h, n - 1), PotentialBelow(cik, h, n - 1).value)
    ensures PotentialBelow(cik, h, n).Some? <==> AllCandidates(cik, h, SelectedBelow(h, n))
    ensures PotentialBelow(cik, h, n).Some? ==> BuiltFrom(cik, h, SelectedBelow(h, n), PotentialBelow(cik, h, n).value)
  {
    var prev := SelectedBelow(h, n - 1);
    if IsRegistration(h.forms[n - 1]) {
      assert SelectedBelow(h, n) == prev + [n - 1];
      match PotentialBelow(cik, h, n - 1)
      case None =>
        AppendSelected(cik, h, prev, n - 1, []);
      case Some(built) =>
        AppendSelected(cik, h, prev, n - 1, built);
    } else {
      assert SelectedBelow(h, n) == prev;
    }
  }

  /** Every record the resolver builds starts with empty name, ticker and content. */
  lemma {:induction false} PotentialRecordsBlank(cik: string, h: FilingHistory, n: nat)
    requires n <= ZipLength(h)
    requires PotentialBelow(cik, h, n).Some?
    ensures forall j :: 0 <= j < |PotentialBelow(cik, h, n).value| ==>
      var v := PotentialBelow(cik, h, n).value[j];
      v.name == "" && v.ticker == "" && v.linkContent == [] && v.date != ""
  {
    if n > 0 {
      PotentialRecordsBlank(cik, h, n - 1);
    }
  }

  lemma {:induction false} FailureStays(cik: string, h: FilingHistory, k: nat)
    requires k <= ZipLength(h)
    requires PotentialBelow(cik, h, k).None?
    ensures Potential(cik, h).None?
    decreases ZipLength(h) - k
  {
    if k < ZipLength(h) {
      FailureStays(cik, h, k + 1);
    }
  }

  /**
   * One S-1 position's turn in the loop: reformat its filing date and
   * create a fresh record with the document link; `None` where `strptime`
   * raises.
   */
  method NewCandidate(cik: string, h: FilingHistory, k: nat) returns (r: Option<Spac>)
    requires k < ZipLength(h)
    ensures r.None? <==> CandidateAt(cik, h, k).None?
    ensures r.Some? ==> fresh(r.value) && r.value.Value() == CandidateAt(cik, h, k).value
  {
    var date := Dates.Reformat(h.filingDates[k]);
    if date.None? {
      return None;
    }
    var spac := new Spac("", "", date.value, DocumentLink(cik, h.accessionNumbers[k], h.primaryDocuments[k]), []);
    r := Some(spac);
  }

  /**
   * `get_potential_spacs_from_cik` after the decoded history is in hand:
   * walks the zipped arrays, and for each S-1 position creates a fresh
   * record; `None` where `strptime` raises.
   */
  method PotentialSpacs(cik: string, h: FilingHistory) returns (r: Option<seq<Spac>>)
    ensures r.Some? <==> Potential(cik, h).Some?
    ensures r.Some? ==> |r.value| == |Potential(cik, h).value|
    ensures r.Some? ==> forall j :: 0 <= j < |r.value| ==>
      fresh(r.value[j]) && r.value[j].Value() == Potential(cik, h).value[j]
    ensures r.Some? ==> forall i, j :: 0 <= i < j < |r.value| ==> r.value[i] != r.value[j]
  {
    var spacs: seq<Spac> := [];
    var n := ZipLength(h);
    var k := 0;
    while k < n
      invariant 0 <= k <= n
      invariant PotentialBelow(cik, h, k).Some?
      invariant |spacs| == |PotentialBelow(cik, h, k).value|
      invariant forall j :: 0 <= j < |spacs| ==>
        fresh(spacs[j]) && spacs[j].Value() == PotentialBelow(cik, h, k).value[j]
      invariant forall i, j :: 0 <= i < j < |spacs| ==> spacs[i] != spacs[j]
    {
      if IsRegistration(h.forms[k]) {
        var spac := NewCandidate(cik, h, k);
        if spac.None? {
          FailureStays(cik, h, k + 1);
          return None;
        }
        spacs := spacs + [spac.value];
      }
      k := k + 1;
    }
    r := Some(spacs);
  }
}
