/**
 * Parsing of lab report file names of the shape `X_Y_LAB.pdf`: the validity
 * test and the extraction of the lab name (main.py, `validate_file_name` and
 * `get_lab_name`), plus the folder name a lab's reports are filed under.
 */
module FileNames {
  import opened Wrappers
  import opened PyStrings

  const Underscore: char := '_'
  const PdfSuffix: string := ".pdf"

  /**
   * `validate_file_name`: the name has exactly two underscores and the text
   * after the last one ends with `.pdf`.
   */
  function ValidateFileName(name: string): (ok: bool)
    ensures ok <==> Count(name, Underscore) == 2 && EndsWith(name[LastIndexOf(name, Underscore) + 1..], PdfSuffix)
  {
    var parts := Split(name, Underscore);
    var after := name[LastIndexOf(name, Underscore) + 1..];
    SplitLast(name, Underscore);
    assert |parts| == 3 ==> parts[2] == after;
    |parts| == 3 && EndsWith(parts[2], PdfSuffix)
  }

  /**
   * `get_lab_name`: `None` for an invalid name; otherwise the third
   * underscore-separated segment, cut in front of its first `.pdf` and
   * stripped of whitespace.
   */
  function GetLabName(name: string): (lab: Option<string>)
    ensures lab.None? <==> !ValidateFileName(name)
  {
    if !ValidateFileName(name) then None
    else
      var segment := Split(name, Underscore)[2];
      Some(Strip(SliceTo(segment, Find(segment, PdfSuffix))))
  }

  /**
   * A lab name is found exactly for the valid file names; it holds no
   * underscore, has no whitespace at either end, and is shorter than its
   * segment by at least the length of `.pdf`.
   */
  lemma GetLabNameShape(name: string)
    ensures GetLabName(name).None? <==> !ValidateFileName(name)
    ensures GetLabName(name).Some? ==> Underscore !in GetLabName(name).value && Trimmed(GetLabName(name).value)
    ensures GetLabName(name).Some? ==> |GetLabName(name).value| <= |Split(name, Underscore)[2]| - |PdfSuffix|
  {
    if ValidateFileName(name) {
      LabOfSegment(Split(name, Underscore)[2]);
    }
  }

  /**
   * The lab part of a third segment: cutting at the first `.pdf` drops at
   * least the suffix, and neither the cut nor the strip brings in a character.
   */
  lemma LabOfSegment(segment: string)
    requires EndsWith(segment, PdfSuffix)
    ensures var r := Strip(SliceTo(segment, Find(segment, PdfSuffix)));
      |r| <= |segment| - |PdfSuffix| && forall c :: c in r ==> c in segment
  {
    PdfFound(segment);
    var kept := SliceTo(segment, Find(segment, PdfSuffix));
    var r := Strip(kept);
    var lo := SpaceEnd(kept, 0);
    var hi := SpaceStart(kept, lo, |kept|);
    assert r == kept[lo..hi];
    forall c | c in r ensures c in segment {
      var i :| 0 <= i < |r| && r[i] == c;
      assert kept[lo + i] == segment[lo + i];
    }
  }

  /** A segment ending in `.pdf` contains `.pdf`, at the latest at its end. */
  lemma PdfFound(segment: string)
    requires EndsWith(segment, PdfSuffix)
    ensures 0 <= Find(segment, PdfSuffix) <= |segment| - |PdfSuffix|
  {
    assert OccursAt(segment, PdfSuffix, |segment| - |PdfSuffix|);
  }

  /** The file-name text for a given lab report (the shape the parser expects). */
  function FileName(x: string, y: string, lab: string): string
  {
    x + [Underscore] + y + [Underscore] + lab + PdfSuffix
  }

  /** `.pdf` does not occur anywhere in `s`. */
  predicate NoPdf(s: string)
  {
    forall j :: 0 <= j < |s| ==> !OccursAt(s, PdfSuffix, j)
  }

  /** In `t + ".pdf"`, the first `.pdf` is the appended one when `t` holds none. */
  lemma {:induction false} FindAppendedPdf(t: string)
    requires NoPdf(t)
    ensures Find(t + PdfSuffix, PdfSuffix) == |t|
  {
    var s := t + PdfSuffix;
    assert OccursAt(s, PdfSuffix, |t|);
    forall j | 0 <= j < |t| ensures !OccursAt(s, PdfSuffix, j) {
      if j + 4 <= |t| {
        assert t[j..j + 4] == s[j..j + 4];
        assert !OccursAt(t, PdfSuffix, j);
      } else {
        // the candidate would end inside the appended suffix, whose first three characters are not 'f'
        assert s[j + 3] == PdfSuffix[j + 3 - |t|] != 'f';
        assert s[j..j + 4][3] == s[j + 3];
      }
    }
  }

  /** Whitespace padding around a `.pdf`-free text holds no `.pdf` either. */
  lemma PaddedNoPdf(a: string, lab: string, b: string)
    requires AllSpace(a) && AllSpace(b) && NoPdf(lab)
    ensures NoPdf(a + lab + b)
  {
    var s := a + lab + b;
    forall j | OccursAt(s, PdfSuffix, j) ensures false {
      assert s[j] == '.' && s[j + 3] == 'f';
      assert !IsSpace('.') && !IsSpace('f');
      assert |a| <= j && j + 3 < |a| + |lab|;
      assert lab[j - |a|..j - |a| + 4] == s[j..j + 4];
      assert OccursAt(lab, PdfSuffix, j - |a|);
    }
  }

  /**
   * Round trip: a report named after a lab (with optional whitespace around
   * the lab name) is valid and yields that lab name back.
   */
  lemma {:induction false} GetLabNameOfFileName(x: string, y: string, a: string, lab: string, b: string)
    requires Underscore !in x && Underscore !in y && Underscore !in lab
    requires AllSpace(a) && AllSpace(b) && Trimmed(lab) && NoPdf(lab)
    ensures ValidateFileName(FileName(x, y, a + lab + b))
    ensures GetLabName(FileName(x, y, a + lab + b)) == Some(lab)
  {
    var padded := a + lab + b;
    assert Underscore !in a && Underscore !in b by {
      assert !IsSpace(Underscore);
    }
    var segment := padded + PdfSuffix;
    assert Underscore !in segment;
    var parts := [x, y, segment];
    assert Join(parts[..2], Underscore) == x + [Underscore] + y by {
      assert parts[..2][..1] == [x];
    }
    assert FileName(x, y, padded) == Join(parts, Underscore);
    SplitJoin(parts, Underscore);
    assert EndsWith(segment, PdfSuffix);
    PaddedNoPdf(a, lab, b);
    FindAppendedPdf(padded);
    assert SliceTo(segment, |padded|) == padded;
    StripPadded(a, lab, b);
  }

  /**
   * The folder a report is filed under: the lab name, or `None` for an
   * invalid name, as Python's string formatting writes the missing value.
   */
  function LabFolder(lab: Option<string>): (folder: string)
    ensures lab.Some? ==> folder == lab.value
    ensures folder == "None" <==> lab == None || lab == Some("None")
  {
    match lab
    case None => "None"
    case Some(l) => l
  }
}
