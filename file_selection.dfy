/** Choosing the PDF to rewrite and the name of the file to write it to.
    The working directory is given as a listing of file names with their
    last-write times, in the order the directory reports them. */
module FileSelection {
  import opened Variants
  import opened CitationText

  datatype FileEntry = FileEntry(name: string, lastWriteTime: int)

  predicate EndsWith(s: string, suffix: string) {
    |suffix| <= |s| && s[|s| - |suffix|..] == suffix
  }

  /** The names present in the directory (what File.Exists consults). */
  function Names(dir: seq<FileEntry>): set<string> {
    set e | e in dir :: e.name
  }

  /** Directory.GetFiles(directory, "*.pdf"), in listing order. */
  function PdfFiles(dir: seq<FileEntry>): (pdfs: seq<FileEntry>)
    ensures forall e :: e in pdfs <==> e in dir && EndsWith(e.name, ".pdf")
  {
    if dir == [] then []
    else (if EndsWith(dir[0].name, ".pdf") then [dir[0]] else []) + PdfFiles(dir[1..])
  }

  // ---------------------------------------------------------------------------
  // Output-name probe

  function DigitChar(d: nat): (c: char)
    requires d < 10
    ensures c as int == 48 + d
  {
    (48 + d) as char
  }

  /** The decimal digits of n, as Int32.ToString writes a non-negative number:
      digits only, no leading zero. */
  function Decimal(n: nat): (r: string)
    ensures |r| >= 1
    ensures n < 10 <==> |r| == 1
    ensures forall i :: 0 <= i < |r| ==> IsDigit(r[i])
    ensures n > 0 ==> r[0] != '0'
  {
    if n < 10 then [DigitChar(n)] else Decimal(n / 10) + [DigitChar(n % 10)]
  }

  /** The number a string of decimal digits denotes, read left to right. */
  function DecimalValue(s: string): nat
  {
    if s == [] then 0
    else
      var d := s[|s| - 1] as int - 48;
      DecimalValue(s[..|s| - 1]) * 10 + (if 0 <= d then d else 0)
  }

  /** Reading the spelling back gives the number. */
  lemma {:induction false} DecimalRoundTrip(n: nat)
    ensures DecimalValue(Decimal(n)) == n
  {
    var r := Decimal(n);
    if n < 10 {
      assert r[..0] == [];
    } else {
      assert r[..|r| - 1] == Decimal(n / 10);
      DecimalRoundTrip(n / 10);
    }
  }

  /** Different numbers have different decimal spellings. */
  lemma {:induction false} DecimalInjective(a: nat, b: nat)
    requires Decimal(a) == Decimal(b)
    ensures a == b
  {
    var s := Decimal(a);
    if a < 10 {
      assert DigitChar(a) == s[0] == DigitChar(b);
    } else {
      var t := Decimal(b);
      assert s[..|s| - 1] == Decimal(a / 10) && t[..|t| - 1] == Decimal(b / 10);
      assert DigitChar(a % 10) == s[|s| - 1] == DigitChar(b % 10);
      DecimalInjective(a / 10, b / 10);
    }
  }

  /** The n-th name the probe tries: output.pdf, output_1.pdf, output_2.pdf, ...
      Each is a PDF name that input selection never picks by itself. */
  function OutputCandidate(n: nat): (name: string)
    ensures IsOutputName(name) && EndsWith(name, ".pdf")
  {
    if n == 0 then "output.pdf" else "output_" + Decimal(n) + ".pdf"
  }

  /** The probe never tries the same name twice. */
  lemma OutputCandidateInjective(a: nat, b: nat)
    requires OutputCandidate(a) == OutputCandidate(b)
    ensures a == b
  {
    var s := OutputCandidate(a);
    if a != 0 && b != 0 {
      assert s[7..|s| - 4] == Decimal(a);
      assert OutputCandidate(b)[7..|s| - 4] == Decimal(b);
      DecimalInjective(a, b);
    }
  }

  /** The while (File.Exists(output_file)) loop: the first candidate name not
      in the directory, after every earlier candidate was found taken. */
  method ProbeOutputName(existing: set<string>) returns (outputFile: string)
    ensures outputFile !in existing
    ensures exists n: nat :: outputFile == OutputCandidate(n)
                          && forall m :: 0 <= m < n ==> OutputCandidate(m) in existing
  {
    outputFile := "output.pdf";
    var countFile := 1;
    ghost var tried: set<string> := {};
    while outputFile in existing
      invariant countFile >= 1
      invariant outputFile == OutputCandidate(countFile - 1)
      invariant forall m :: 0 <= m < countFile - 1 ==> OutputCandidate(m) in existing
      invariant tried <= existing
      invariant forall name :: name in tried ==>
        exists m :: 0 <= m < countFile - 1 && name == OutputCandidate(m)
      decreases |existing - tried|
    {
      assert outputFile !in tried by {
        if outputFile in tried {
          var m :| 0 <= m < countFile - 1 && outputFile == OutputCandidate(m);
          OutputCandidateInjective(m, countFile - 1);
        }
      }
      assert existing - (tried + {outputFile}) < existing - tried;
      tried := tried + {outputFile};
      outputFile := "output_" + Decimal(countFile) + ".pdf";
      countFile := countFile + 1;
    }
  }

  // ---------------------------------------------------------------------------
  // Input selection

  predicate NewestFirst(files: seq<FileEntry>) {
    forall i, j :: 0 <= i < j < |files| ==> files[i].lastWriteTime >= files[j].lastWriteTime
  }

  /** Insert e ahead of every entry that is not newer than it. */
  function InsertByTime(e: FileEntry, files: seq<FileEntry>): (r: seq<FileEntry>)
    requires NewestFirst(files)
    ensures NewestFirst(r)
    ensures multiset(r) == multiset(files) + multiset{e}
    ensures |r| > 0 && (r[0] == e || (|files| > 0 && r[0] == files[0]))
  {
    if files == [] || e.lastWriteTime >= files[0].lastWriteTime then [e] + files
    else
      assert files == [files[0]] + files[1..];
      [files[0]] + InsertByTime(e, files[1..])
  }

  /** files.OrderByDescending(f => LastWriteTime): a stable sort, newest first. */
  function OrderByNewest(files: seq<FileEntry>): (r: seq<FileEntry>)
    ensures NewestFirst(r)
    ensures multiset(r) == multiset(files)
  {
    if files == [] then []
    else
      assert files == [files[0]] + files[1..];
      InsertByTime(files[0], OrderByNewest(files[1..]))
  }

  /** Names the program refuses to pick by itself: its own outputs. */
  predicate IsOutputName(name: string) {
    StartsWith(name, "output")
  }

  /** e is a newest file of the list whose name does not start with "output". */
  predicate IsNewestInput(files: seq<FileEntry>, e: FileEntry) {
    && e in files
    && !IsOutputName(e.name)
    && forall f :: f in files && !IsOutputName(f.name) ==> f.lastWriteTime <= e.lastWriteTime
  }

  /** The enumerator loop over the files, newest first: the first whose name
      does not start with "output", or "" when every name does. */
  method NewestInput(files: seq<FileEntry>) returns (pdfFile: string)
    ensures || (exists e :: IsNewestInput(files, e) && pdfFile == e.name)
            || (pdfFile == "" && forall e :: e in files ==> IsOutputName(e.name))
  {
    var ordered := OrderByNewest(files);
    assert forall e :: e in ordered <==> e in files by {
      forall e ensures e in ordered <==> e in files {
        assert e in ordered <==> e in multiset(ordered);
        assert e in files <==> e in multiset(files);
      }
    }
    pdfFile := "";
    var k := 0;
    while k < |ordered|
      invariant 0 <= k <= |ordered|
      invariant pdfFile == ""
      invariant forall m :: 0 <= m < k ==> IsOutputName(ordered[m].name)
    {
      if !IsOutputName(ordered[k].name) {
        pdfFile := ordered[k].name;
        forall f | f in files && !IsOutputName(f.name)
          ensures f.lastWriteTime <= ordered[k].lastWriteTime
        {
          var m :| 0 <= m < |ordered| && ordered[m] == f;
        }
        assert IsNewestInput(files, ordered[k]);
        break;
      }
      k := k + 1;
    }
  }

  datatype Selection = NoPdfFiles | FileNotFound(arg: string) | Selected(pdfFile: string)

  /** Which file the program opens, or why it exits without touching any. */
  method SelectInput(dir: seq<FileEntry>, args: seq<string>, v: Variant) returns (sel: Selection)
    ensures PdfFiles(dir) == [] ==> sel == NoPdfFiles
    ensures PdfFiles(dir) != [] && |args| > 0 ==>
      sel == if args[0] in Names(dir) then Selected(args[0])
             else if v.TriesPdfExtension() && args[0] + ".pdf" in Names(dir) then Selected(args[0] + ".pdf")
             else FileNotFound(args[0])
    ensures PdfFiles(dir) != [] && |args| == 0 ==>
      && sel.Selected?
      && (|| (exists e :: IsNewestInput(PdfFiles(dir), e) && sel.pdfFile == e.name)
          || (sel.pdfFile == "" && forall e :: e in PdfFiles(dir) ==> IsOutputName(e.name)))
    ensures sel.Selected? && sel.pdfFile != "" ==> sel.pdfFile in Names(dir)
  {
    var files := PdfFiles(dir);
    if |files| == 0 {
      return NoPdfFiles;
    }
    if |args| > 0 {
      var argInput := args[0];
      if argInput !in Names(dir) {
        if v.TriesPdfExtension() && argInput + ".pdf" in Names(dir) {
          argInput := argInput + ".pdf";
        } else {
          return FileNotFound(args[0]);
        }
      }
      sel := Selected(argInput);
    } else {
      var pdfFile := NewestInput(files);
      sel := Selected(pdfFile);
    }
  }
}
