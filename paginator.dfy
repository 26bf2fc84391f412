/**
 * The paginator: two buttons whose disabled state is derived from the
 * current and total page, and the "current/total" label between them.
 */
module Paginator {
  import opened Wrappers

  /** The back button is disabled on page 1. */
  function IsBackDisabled(currentPage: int): bool { currentPage == 1 }

  /** The next button is disabled on the last page. */
  function IsNextDisabled(currentPage: int, totalPages: int): bool { currentPage == totalPages }

  // ---------------------------------------------------------------------
  // The label
  // ---------------------------------------------------------------------

  predicate IsDigit(c: char) { '0' <= c <= '9' }

  /** A non-empty run of decimal digits with no superfluous leading zero. */
  predicate IsNumeral(t: string) {
    && t != []
    && (forall i :: 0 <= i < |t| ==> IsDigit(t[i]))
    && (|t| > 1 ==> t[0] != '0')
  }

  function DigitChar(d: nat): (c: char)
    requires d < 10
    ensures IsDigit(c) && c as int - '0' as int == d
  {
    (('0' as int) + d) as char
  }

  function DigitValue(c: char): nat {
    if IsDigit(c) then c as int - '0' as int else 0
  }

  /** How a page number is written in the label: decimal, as a JavaScript number renders. */
  function NumberText(n: nat): (t: string)
    ensures IsNumeral(t)
    decreases n
  {
    if n < 10 then [DigitChar(n)] else NumberText(n / 10) + [DigitChar(n % 10)]
  }

  /** The value of a run of decimal digits. */
  function DigitsValue(t: string): nat
    decreases |t|
  {
    if t == [] then 0 else DigitsValue(t[..|t| - 1]) * 10 + DigitValue(t[|t| - 1])
  }

  /** Reading back the digits of a number gives the number. */
  lemma {:induction false} NumberTextValue(n: nat)
    ensures DigitsValue(NumberText(n)) == n
    decreases n
  {
    var t := NumberText(n);
    if n >= 10 {
      NumberTextValue(n / 10);
      assert t[..|t| - 1] == NumberText(n / 10);
    }
  }

  /** `{currentPage}/{totalPages}`. */
  function Label(currentPage: nat, totalPages: nat): string {
    NumberText(currentPage) + "/" + NumberText(totalPages)
  }

  /** The position of the first '/' at or after `i`, or the length when there is none. */
  function FirstSlash(s: string, i: nat): (j: nat)
    requires i <= |s|
    ensures i <= j <= |s|
    ensures j < |s| ==> s[j] == '/'
    decreases |s| - i
  {
    if i == |s| || s[i] == '/' then i else FirstSlash(s, i + 1)
  }

  lemma {:induction false} FirstSlashAt(s: string, i: nat, j: nat)
    requires i <= j < |s| && s[j] == '/'
    requires forall q :: i <= q < j ==> s[q] != '/'
    ensures FirstSlash(s, i) == j
    decreases j - i
  {
    if i < j {
      FirstSlashAt(s, i + 1, j);
    }
  }

  /** Reads a label back into its two page numbers. */
  function ParseLabel(s: string): Option<(nat, nat)> {
    var j := FirstSlash(s, 0);
    if j == |s| then None
    else
      var a := s[..j];
      var b := s[j + 1..];
      if IsNumeral(a) && IsNumeral(b) then Some((DigitsValue(a), DigitsValue(b))) else None
  }

  /** The label determines both page numbers: reading it back gives them. */
  lemma {:induction false} LabelRoundTrip(currentPage: nat, totalPages: nat)
    ensures ParseLabel(Label(currentPage, totalPages)) == Some((currentPage, totalPages))
  {
    var a := NumberText(currentPage);
    var b := NumberText(totalPages);
    var s := Label(currentPage, totalPages);
    assert s[|a|] == '/';
    assert forall q :: 0 <= q < |a| ==> s[q] == a[q];
    FirstSlashAt(s, 0, |a|);
    assert s[..|a|] == a;
    assert s[|a| + 1..] == b;
    NumberTextValue(currentPage);
    NumberTextValue(totalPages);
  }

  /** Different page states never show the same label. */
  lemma {:induction false} LabelInjective(c1: nat, t1: nat, c2: nat, t2: nat)
    requires Label(c1, t1) == Label(c2, t2)
    ensures c1 == c2 && t1 == t2
  {
    LabelRoundTrip(c1, t1);
    LabelRoundTrip(c2, t2);
  }

  /** Page 1 of 3 reads "1/3". */
  lemma {:induction false} LabelExample()
    ensures Label(1, 3) == "1/3"
  {
    assert NumberText(1) == "1";
    assert NumberText(3) == "3";
  }
}
