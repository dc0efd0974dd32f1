/**
 * The values the upload controller of static/js/script.js works with, and
 * the pure decisions it makes about them: which files it accepts, which icon
 * a file gets, and how a file's size is displayed.
 */
module UploadRules {
  import opened Wrappers

  /** A `File` as the controller sees it: name, declared MIME type, bytes. */
  datatype FileInfo = FileInfo(name: string, mimeType: string, size: nat)

  /** The three `.page` containers; the `${pageId}-page` element of each. */
  datatype Page = Home | Loading | Explain

  /** Every `.page` element, in document order. */
  const AllPages: seq<Page> := [Home, Loading, Explain]

  /** `showAlert`'s `type` argument: 'info' (its default) or 'error'. */
  datatype AlertKind = Info | Error

  datatype Alert = Alert(message: string, kind: AlertKind)

  /** What `await fetch(...)` and `await response.json()` produce: either
    * they throw (Failure), or they yield a JSON object whose `error`,
    * `filename` and `explanation` properties may each be missing. */
  datatype Response =
    | Failure
    | Reply(error: Option<string>, filename: Option<string>, explanation: Option<string>)

  /** Which of getFileIcon's three SVG strings is returned. */
  datatype FileIcon = PdfIcon | ImageIcon | GenericIcon

  const ValidTypes: seq<string> := ["application/pdf", "image/jpeg", "image/jpg", "image/png"]
  /** 10 * 1024 * 1024 bytes. */
  const MaxSize: nat := 10485760

  const InvalidTypeMessage: string := "Please select a valid file (PDF, JPG, PNG)"
  const TooLargeMessage: string := "File size must be less than 10MB"
  const NoFileMessage: string := "Please select a file first"
  const FailureMessage: string := "Something went wrong"

  predicate IsAllowedType(mimeType: string) {
    mimeType in ValidTypes
  }

  /** The files `processFile` keeps. */
  predicate IsAcceptable(f: FileInfo) {
    IsAllowedType(f.mimeType) && f.size <= MaxSize
  }

  /** The alert `processFile` raises instead of keeping f: the type is
    * checked first, the size second. */
  function Rejection(f: FileInfo): (r: Option<string>)
    ensures r.None? <==> IsAcceptable(f)
    ensures r.Some? ==> r.value in {InvalidTypeMessage, TooLargeMessage}
  {
    if !IsAllowedType(f.mimeType) then Some(InvalidTypeMessage)
    else if f.size > MaxSize then Some(TooLargeMessage)
    else None
  }

  /** A file that fails both checks gets only the type message, and the
    * limit is inclusive: exactly 10 MiB passes, one byte more does not. */
  lemma RejectionOrderAndLimit(name: string)
    ensures Rejection(FileInfo(name, "text/plain", MaxSize + 1)) == Some(InvalidTypeMessage)
    ensures Rejection(FileInfo(name, "application/pdf", MaxSize)) == None
    ensures Rejection(FileInfo(name, "image/png", MaxSize + 1)) == Some(TooLargeMessage)
  {
  }

  predicate StartsWith(s: string, prefix: string) {
    |prefix| <= |s| && s[..|prefix|] == prefix
  }

  /** getFileIcon, reduced to which icon it picks: the PDF icon for PDFs
    * only, the image icon for exactly the other `image/` types, and never
    * the fallback for a type the controller accepts. */
  function IconFor(mimeType: string): (icon: FileIcon)
    ensures icon == PdfIcon <==> mimeType == "application/pdf"
    ensures icon == ImageIcon <==> mimeType != "application/pdf" && StartsWith(mimeType, "image/")
    ensures IsAllowedType(mimeType) ==> icon != GenericIcon
  {
    assert StartsWith("image/jpeg", "image/");
    assert StartsWith("image/jpg", "image/");
    assert StartsWith("image/png", "image/");
    if mimeType == "application/pdf" then PdfIcon
    else if StartsWith(mimeType, "image/") then ImageIcon
    else GenericIcon
  }

  /** Every accepted type gets a specific icon: the PDF one for PDFs and the
    * image one for the three image types. */
  lemma AllowedTypesHaveSpecificIcon(mimeType: string)
    requires IsAllowedType(mimeType)
    ensures IconFor(mimeType) != GenericIcon
    ensures IconFor(mimeType) == PdfIcon <==> mimeType == "application/pdf"
  {
  }

  // ---------------------------------------------------------------------
  // The size label: `${(size / 1024 / 1024).toFixed(2)} MB`
  // ---------------------------------------------------------------------

  /** The integer n that `toFixed(2)` prints for size / 2^20: the n for which
    * n / 100 is nearest to that quotient, the larger on a tie. Dividing an
    * integer below 2^53 by a power of two is exact in binary floating point,
    * so nothing is lost before toFixed rounds. */
  function Hundredths(size: nat): (n: nat)
    ensures -1048576 < 2097152 * n - 200 * size <= 1048576
  {
    (200 * size + 1048576) / 2097152
  }

  /** The bound above determines n: it is toFixed's choice and no other. */
  lemma HundredthsUnique(size: nat, n: nat)
    requires -1048576 < 2097152 * n - 200 * size <= 1048576
    ensures n == Hundredths(size)
  {
  }

  predicate IsDigit(c: char) {
    '0' <= c <= '9'
  }

  function DigitChar(d: nat): (c: char)
    requires d < 10
    ensures IsDigit(c) && c as int - '0' as int == d
  {
    ('0' as int + d) as char
  }

  /** Number-to-string of a non-negative integer: its decimal digits, with no
    * leading zero. */
  function DecimalString(n: nat): (s: string)
    ensures 1 <= |s|
    ensures forall i :: 0 <= i < |s| ==> IsDigit(s[i])
    ensures 1 < |s| ==> s[0] != '0'
    decreases n
  {
    if n < 10 then [DigitChar(n)] else DecimalString(n / 10) + [DigitChar(n % 10)]
  }

  function DigitValue(c: char): (d: nat)
    requires IsDigit(c)
    ensures d < 10
  {
    c as int - '0' as int
  }

  /** The number a string of decimal digits denotes. */
  function DecimalValue(s: string): nat
    requires forall i :: 0 <= i < |s| ==> IsDigit(s[i])
    decreases |s|
  {
    if s == [] then 0
    else DecimalValue(s[..|s| - 1]) * 10 + DigitValue(s[|s| - 1])
  }

  lemma {:induction false} DecimalRoundTrip(n: nat)
    ensures DecimalValue(DecimalString(n)) == n
    decreases n
  {
    if n >= 10 {
      DecimalRoundTrip(n / 10);
      var s := DecimalString(n);
      assert s[..|s| - 1] == DecimalString(n / 10);
    }
  }

  /** `x.toFixed(2)` for x = size / 2^20: the integer part without leading
    * zeros, a point, and exactly two decimals; read without the point, the
    * digits give the rounded hundredths. */
  function ToFixed2(size: nat): (r: string)
    ensures 4 <= |r| && r[|r| - 3] == '.'
    ensures 4 < |r| ==> r[0] != '0'
    ensures var d := r[..|r| - 3] + r[|r| - 2..];
      && (forall i :: 0 <= i < |d| ==> IsDigit(d[i]))
      && DecimalValue(d) == Hundredths(size)
  {
    var n := Hundredths(size);
    var w := DecimalString(n / 100);
    var a, b := DigitChar(n % 100 / 10), DigitChar(n % 10);
    FixedLayout(w, a, b);
    DecimalRoundTrip(n / 100);
    DecimalAppendTwo(w, a, b);
    SplitHundredths(n);
    w + "." + [a, b]
  }

  /** Where the parts of `w.ab` sit. */
  lemma FixedLayout(w: string, a: char, b: char)
    ensures var t := w + "." + [a, b];
      && |t| == |w| + 3 && t[|t| - 3] == '.'
      && t[..|t| - 3] + t[|t| - 2..] == w + [a, b]
  {
    var t := w + "." + [a, b];
    assert t[..|t| - 3] == w;
    assert t[|t| - 2..] == [a, b];
  }

  /** The text of the file-size element: a number with two decimals, then
    * " MB". */
  function MegabytesLabel(size: nat): (r: string)
    ensures 7 <= |r| && r[|r| - 3..] == " MB" && r[|r| - 6] == '.'
    ensures forall i :: 0 <= i < |r| - 3 && i != |r| - 6 ==> IsDigit(r[i])
  {
    var f := ToFixed2(size);
    var r := f + " MB";
    assert r[..|r| - 3] == f;
    assert forall i :: 0 <= i < |f| && i != |f| - 3 ==> IsDigit(f[i]) by {
      var d := f[..|f| - 3] + f[|f| - 2..];
      forall i | 0 <= i < |f| && i != |f| - 3 ensures IsDigit(f[i]) {
        if i < |f| - 3 { assert f[i] == d[i]; } else { assert f[i] == d[i - 1]; }
      }
    }
    r
  }

  /** The label is digits, a point, two digits and " MB", and read without
    * the point its digits give back the rounded hundredths of a MiB. */
  lemma MegabytesLabelReadsBack(size: nat)
    ensures var t := MegabytesLabel(size);
      && 7 <= |t| && t[|t| - 3..] == " MB" && t[|t| - 6] == '.'
      && (forall i :: 0 <= i < |t| - 6 ==> IsDigit(t[i]))
      && IsDigit(t[|t| - 5]) && IsDigit(t[|t| - 4])
      && DecimalValue(t[..|t| - 6] + t[|t| - 5..|t| - 3]) == Hundredths(size)
  {
    var f := ToFixed2(size);
    assert MegabytesLabel(size) == f + " MB";
    UnitSuffixParts(f);
  }

  /** Appending " MB" leaves the digits around the point where they were. */
  lemma UnitSuffixParts(f: string)
    requires 4 <= |f|
    ensures var t := f + " MB";
      && t[..|t| - 6] == f[..|f| - 3]
      && t[|t| - 5..|t| - 3] == f[|f| - 2..]
  {
  }

  /** Appending two digits to a digit string scales its value by a hundred. */
  lemma DecimalAppendTwo(w: string, a: char, b: char)
    requires forall i :: 0 <= i < |w| ==> IsDigit(w[i])
    requires IsDigit(a) && IsDigit(b)
    ensures DecimalValue(w + [a, b]) == (DecimalValue(w) * 10 + DigitValue(a)) * 10 + DigitValue(b)
  {
    var d := w + [a, b];
    assert d[..|d| - 1] == w + [a];
    assert (w + [a])[..|w|] == w;
  }

  lemma SplitHundredths(n: nat)
    ensures (n / 100 * 10 + n % 100 / 10) * 10 + n % 10 == n
  {
  }

  /** Every accepted file is displayed as at most "10.00 MB". */
  lemma AcceptedLabelAtMostTen(f: FileInfo)
    requires IsAcceptable(f)
    ensures Hundredths(f.size) <= 1000
  {
  }
}
