/**
 * The listing parser and the two matchers of the exam sniper
 * (src/utility/utility.ts): the record types, the date-prefix extraction,
 * the row parser, the "already signed" matcher and the sign-up button
 * search. Page elements are replaced by plain values: a listing row is a
 * `Row`, a button is its label.
 */
module Utility {
  import opened Wrappers

  /** `ExamStatus` of the portal's listing. */
  datatype ExamStatus = NotAvailable | Available | Signed

  /** A watched course: its code and the acceptable dates, most preferred first. */
  datatype SnipeExam = SnipeExam(code: string, dates: seq<string>)

  /** The identity of a listing row element on the page. */
  type RowHandle = nat

  /** One parsed listing record; `element` is the row it was read from. */
  datatype AvailableExam = AvailableExam(code: string, date: string, element: RowHandle, status: ExamStatus)

  /**
   * A listing row as the page shows it: the text of its course-code and date
   * cells (`None` when the cell is missing), and whether it holds a
   * `span.signed-up` and a `span.available` marker.
   */
  datatype Row = Row(handle: RowHandle, courseCode: Option<string>, dateRaw: Option<string>,
                     signedUp: bool, available: bool)

  /** Separator between the start of an exam and the rest of the date cell. */
  const Separator: string := " - "

  /** The label of the portal's sign-up button ("Přihlásit"). */
  const SignUpLabel: string := "P\U{0159}ihl\U{00E1}sit"

  // ---------------------------------------------------------------------------
  // Date extraction
  // ---------------------------------------------------------------------------

  /** The separator occurs in `s` starting at position `i`. */
  predicate SeparatorAt(s: string, i: nat) {
    i + |Separator| <= |s| && s[i..i + |Separator|] == Separator
  }

  lemma SeparatorAtShift(s: string, i: nat)
    requires 0 < |s|
    ensures SeparatorAt(s, i + 1) == SeparatorAt(s[1..], i)
  {
    if i + 1 + |Separator| <= |s| {
      assert s[i + 1..i + 1 + |Separator|] == s[1..][i..i + |Separator|];
    }
  }

  /**
   * The first piece of `s.split(" - ")`: everything before the first
   * separator, or all of `s` when there is none.
   */
  function DatePart(s: string): (r: string)
    ensures r <= s
    ensures forall i :: 0 <= i < |r| ==> !SeparatorAt(s, i)
    ensures r == s || SeparatorAt(s, |r|)
  {
    if |s| < |Separator| then s
    else if s[..|Separator|] == Separator then ""
    else
      var rest := DatePart(s[1..]);
      forall i | 0 <= i < |rest| + 1 ensures !SeparatorAt(s, i) {
        if i > 0 { SeparatorAtShift(s, i - 1); }
      }
      SeparatorAtShift(s, |rest|);
      [s[0]] + rest
  }

  /** The three properties of `DatePart` determine it: it is the prefix before the FIRST separator. */
  lemma DatePartUnique(s: string, p: string)
    requires p <= s
    requires forall i :: 0 <= i < |p| ==> !SeparatorAt(s, i)
    requires p == s || SeparatorAt(s, |p|)
    ensures p == DatePart(s)
  {
    var r := DatePart(s);
    assert |p| <= |r| by {
      assert r == s || SeparatorAt(s, |r|);
      assert forall i :: 0 <= i < |p| ==> !SeparatorAt(s, i);
    }
    assert |r| <= |p| by {
      assert p == s || SeparatorAt(s, |p|);
      assert forall i :: 0 <= i < |r| ==> !SeparatorAt(s, i);
    }
    assert p == s[..|p|] && r == s[..|r|];
  }

  /**
   * `Utility.parseExamDate`: the date part of a raw date cell, or `None`
   * when that part is empty (the cell is empty or begins with the separator).
   */
  function ParseExamDate(raw: string): (r: Option<string>)
    ensures r.None? <==> raw == "" || SeparatorAt(raw, 0)
    ensures r.Some? ==> r.value != "" && r.value <= raw
    ensures r.Some? ==> forall i :: 0 <= i < |r.value| ==> !SeparatorAt(raw, i)
    ensures r.Some? ==> r.value == raw || SeparatorAt(raw, |r.value|)
    ensures r.Some? ==> forall i :: 0 <= i < |r.value| ==> !SeparatorAt(r.value, i)
  {
    var part := DatePart(raw);
    if part == "" then None
    else
      forall i | 0 <= i < |part| ensures !SeparatorAt(part, i) {
        assert !SeparatorAt(raw, i);
      }
      Some(part)
  }

  /** A non-empty cell without the separator is taken whole as the date. */
  lemma WholeCellWithoutSeparator(raw: string)
    requires raw != "" && forall i :: 0 <= i < |raw| ==> !SeparatorAt(raw, i)
    ensures ParseExamDate(raw) == Some(raw)
  {
  }

  // ---------------------------------------------------------------------------
  // JavaScript's String.prototype.trim
  // ---------------------------------------------------------------------------

  /** The characters JavaScript's `trim` removes: WhiteSpace and LineTerminator. */
  predicate IsJsWhitespace(c: char) {
    c == '\t' || c == '\n' || c == '\U{000B}' || c == '\U{000C}' || c == '\r' || c == ' '
    || c == '\U{00A0}' || c == '\U{1680}' || ('\U{2000}' <= c <= '\U{200A}')
    || c == '\U{2028}' || c == '\U{2029}' || c == '\U{202F}' || c == '\U{205F}'
    || c == '\U{3000}' || c == '\U{FEFF}'
  }

  predicate AllWhitespace(s: string) {
    forall i :: 0 <= i < |s| ==> IsJsWhitespace(s[i])
  }

  /** Neither end of `s` is whitespace. */
  predicate Tight(s: string) {
    s == [] || (!IsJsWhitespace(s[0]) && !IsJsWhitespace(s[|s| - 1]))
  }

  /** `s` without its leading whitespace. */
  function TrimStart(s: string): string {
    if |s| > 0 && IsJsWhitespace(s[0]) then TrimStart(s[1..]) else s
  }

  /** `s` without its trailing whitespace. */
  function TrimEnd(s: string): string {
    if |s| > 0 && IsJsWhitespace(s[|s| - 1]) then TrimEnd(s[..|s| - 1]) else s
  }

  /** `s.trim()`: `s` without its leading and trailing whitespace. */
  function Trim(s: string): string {
    TrimEnd(TrimStart(s))
  }

  /** `TrimStart` drops a whitespace prefix and leaves a suffix that does not start with whitespace. */
  lemma {:induction false} TrimStartDropsPrefix(s: string)
    ensures |TrimStart(s)| <= |s| && TrimStart(s) == s[|s| - |TrimStart(s)|..]
    ensures AllWhitespace(s[..|s| - |TrimStart(s)|])
    ensures TrimStart(s) == [] || !IsJsWhitespace(TrimStart(s)[0])
  {
    if |s| > 0 && IsJsWhitespace(s[0]) {
      TrimStartDropsPrefix(s[1..]);
      var rest := TrimStart(s[1..]);
      assert s[..|s| - |rest|] == [s[0]] + s[1..][..|s| - 1 - |rest|];
    }
  }

  /** `TrimEnd` drops a whitespace suffix and leaves a prefix that does not end with whitespace. */
  lemma {:induction false} TrimEndDropsSuffix(s: string)
    ensures |TrimEnd(s)| <= |s| && TrimEnd(s) == s[..|TrimEnd(s)|]
    ensures AllWhitespace(s[|TrimEnd(s)|..])
    ensures TrimEnd(s) == [] || !IsJsWhitespace(TrimEnd(s)[|TrimEnd(s)| - 1])
  {
    if |s| > 0 && IsJsWhitespace(s[|s| - 1]) {
      TrimEndDropsSuffix(s[..|s| - 1]);
      var rest := TrimEnd(s[..|s| - 1]);
      assert s[|rest|..] == s[..|s| - 1][|rest|..] + [s[|s| - 1]];
    }
  }

  /** `trim` removes only whitespace, and only at the two ends. */
  lemma TrimInfix(s: string) returns (lead: string, trail: string)
    ensures Tight(Trim(s))
    ensures s == lead + Trim(s) + trail
    ensures AllWhitespace(lead) && AllWhitespace(trail)
  {
    var t := TrimStart(s);
    TrimStartDropsPrefix(s);
    var r := TrimEnd(t);
    TrimEndDropsSuffix(t);
    lead, trail := s[..|s| - |t|], t[|r|..];
    assert s == lead + t;
    assert t == r + trail;
    assert r == [] || r[0] == t[0];
  }

  lemma WhitespaceSplit(pre: string, mid: string, pre': string, mid': string, rest: string, rest': string)
    requires pre + mid + rest == pre' + mid' + rest'
    requires AllWhitespace(pre) && AllWhitespace(rest) && AllWhitespace(pre') && AllWhitespace(rest')
    requires Tight(mid) && Tight(mid')
    requires mid != [] && mid' != []
    ensures |pre| == |pre'| && mid == mid'
  {
    var s := pre + mid + rest;
    var e, e' := |pre| + |mid|, |pre'| + |mid'|;
    // the first and the last non-whitespace characters of s sit at the same places
    forall i | 0 <= i < |pre'| ensures IsJsWhitespace(s[i]) { assert s[i] == pre'[i]; }
    forall i | 0 <= i < |pre| ensures IsJsWhitespace(s[i]) { assert s[i] == pre[i]; }
    forall i | e <= i < |s| ensures IsJsWhitespace(s[i]) { assert s[i] == rest[i - e]; }
    forall i | e' <= i < |s| ensures IsJsWhitespace(s[i]) { assert s[i] == rest'[i - e']; }
    assert !IsJsWhitespace(s[|pre|]) by { assert s[|pre|] == mid[0]; }
    assert !IsJsWhitespace(s[|pre'|]) by { assert s[|pre'|] == mid'[0]; }
    assert !IsJsWhitespace(s[e - 1]) by { assert s[e - 1] == mid[|mid| - 1]; }
    assert !IsJsWhitespace(s[e' - 1]) by { assert s[e' - 1] == mid'[|mid'| - 1]; }
    assert mid == s[|pre|..e];
    assert mid' == s[|pre'|..e'];
  }

  /** `trim` gives back exactly the part between the leading and the trailing whitespace. */
  lemma TrimOfPadded(pre: string, mid: string, post: string)
    requires AllWhitespace(pre) && AllWhitespace(post) && Tight(mid)
    ensures Trim(pre + mid + post) == mid
  {
    var s := pre + mid + post;
    var r := Trim(s);
    var lead, trail := TrimInfix(s);
    if mid == [] {
      assert s == pre + post;
      forall i | 0 <= i < |r| ensures IsJsWhitespace(r[i]) {
        var p := |lead| + i;
        assert r[i] == s[p];
        if p < |pre| { assert s[p] == pre[p]; } else { assert s[p] == post[p - |pre|]; }
      }
    } else {
      assert !IsJsWhitespace(s[|pre|]) by { assert s[|pre|] == mid[0]; }
      assert r != [] by {
        forall i | 0 <= i < |lead| ensures IsJsWhitespace(s[i]) { assert s[i] == lead[i]; }
        forall i | |lead| + |r| <= i < |s| ensures IsJsWhitespace(s[i]) { assert s[i] == trail[i - |lead| - |r|]; }
      }
      WhitespaceSplit(pre, mid, lead, r, post, trail);
    }
  }

  /** Trimming twice is trimming once. */
  lemma TrimIdempotent(s: string)
    ensures Trim(Trim(s)) == Trim(s)
  {
    var _, _ := TrimInfix(s);
    TrimOfPadded("", Trim(s), "");
    assert "" + Trim(s) + "" == Trim(s);
  }

  // ---------------------------------------------------------------------------
  // Listing parser
  // ---------------------------------------------------------------------------

  /** A cell text is present and not empty (JavaScript truthiness of `string | undefined`). */
  predicate Present(cell: Option<string>) {
    cell.Some? && cell.value != ""
  }

  /**
   * The record one row yields, `None` when the row is dropped: its code or
   * date cell is missing or empty, or its date part is empty. The available
   * marker is checked after the signed-up marker and overwrites it.
   */
  function ParseRow(row: Row): (r: Option<AvailableExam>)
    ensures r.None? <==>
      !Present(row.courseCode) || !Present(row.dateRaw) || ParseExamDate(row.dateRaw.value).None?
    ensures r.Some? ==>
      r.value.code == row.courseCode.value && r.value.code != "" &&
      Some(r.value.date) == ParseExamDate(row.dateRaw.value) && r.value.date != "" &&
      r.value.element == row.handle
    ensures r.Some? ==>
      (r.value.status == Available <==> row.available) &&
      (r.value.status == Signed <==> row.signedUp && !row.available) &&
      (r.value.status == NotAvailable <==> !row.signedUp && !row.available)
  {
    if !Present(row.courseCode) || !Present(row.dateRaw) then None
    else match ParseExamDate(row.dateRaw.value)
      case None => None
      case Some(date) =>
        var status := if row.available then Available else if row.signedUp then Signed else NotAvailable;
        Some(AvailableExam(row.courseCode.value, date, row.handle, status))
  }

  /** The records of a listing, in row order, dropping the rows `ParseRow` rejects. */
  function ParseRows(rows: seq<Row>): seq<AvailableExam> {
    if rows == [] then []
    else
      var init := ParseRows(rows[..|rows| - 1]);
      match ParseRow(rows[|rows| - 1])
      case None => init
      case Some(e) => init + [e]
  }

  /** The positions of the rows that yield a record, in increasing order. */
  function KeptRows(rows: seq<Row>): seq<nat> {
    if rows == [] then []
    else
      var init := KeptRows(rows[..|rows| - 1]);
      if ParseRow(rows[|rows| - 1]).Some? then init + [|rows| - 1] else init
  }

  predicate StrictlyIncreasing(s: seq<nat>) {
    forall i, j :: 0 <= i < j < |s| ==> s[i] < s[j]
  }

  /**
   * The parser is an order-preserving filter: the k-th record comes from
   * the k-th kept row, the kept rows are exactly those `ParseRow` accepts,
   * each row is used at most once, and there are never more records than rows.
   */
  lemma {:induction false} ParseRowsIsFilter(rows: seq<Row>)
    ensures |ParseRows(rows)| == |KeptRows(rows)| <= |rows|
    ensures StrictlyIncreasing(KeptRows(rows))
    ensures forall k :: 0 <= k < |KeptRows(rows)| ==>
              KeptRows(rows)[k] < |rows| && ParseRow(rows[KeptRows(rows)[k]]) == Some(ParseRows(rows)[k])
  {
    if rows != [] {
      var init, last := rows[..|rows| - 1], rows[|rows| - 1];
      ParseRowsIsFilter(init);
      var kept, parsed := KeptRows(init), ParseRows(init);
      assert forall j :: 0 <= j < |init| ==> rows[j] == init[j];
      match ParseRow(last)
      case None =>
        assert KeptRows(rows) == kept && ParseRows(rows) == parsed;
      case Some(e) =>
        assert KeptRows(rows) == kept + [|rows| - 1];
        assert ParseRows(rows) == parsed + [e];
        forall k | 0 <= k < |kept| + 1
          ensures (kept + [|rows| - 1])[k] < |rows|
          ensures ParseRow(rows[(kept + [|rows| - 1])[k]]) == Some((parsed + [e])[k])
        {
          if k < |kept| {
            assert (kept + [|rows| - 1])[k] == kept[k];
            assert (parsed + [e])[k] == parsed[k];
          }
        }
    }
  }

  /** The kept rows are exactly the rows `ParseRow` accepts. */
  lemma {:induction false} KeptRowsAreAccepted(rows: seq<Row>)
    ensures forall j :: 0 <= j < |rows| ==> (ParseRow(rows[j]).Some? <==> j in KeptRows(rows))
  {
    if rows != [] {
      var init := rows[..|rows| - 1];
      KeptRowsAreAccepted(init);
      ParseRowsIsFilter(init);
      assert forall j :: 0 <= j < |init| ==> rows[j] == init[j];
    }
  }

  /** Every parsed record has a non-empty code and date and comes from some row of the listing. */
  lemma RecordsWellFormed(rows: seq<Row>)
    ensures forall e :: e in ParseRows(rows) ==>
              e.code != "" && e.date != "" && exists j :: 0 <= j < |rows| && ParseRow(rows[j]) == Some(e)
  {
    ParseRowsIsFilter(rows);
    forall e | e in ParseRows(rows)
      ensures e.code != "" && e.date != "" && exists j :: 0 <= j < |rows| && ParseRow(rows[j]) == Some(e)
    {
      var k :| 0 <= k < |ParseRows(rows)| && ParseRows(rows)[k] == e;
      var j := KeptRows(rows)[k];
      assert ParseRow(rows[j]) == Some(e);
    }
  }

  /** `Utility.parseAvailableExams` over abstract rows. */
  method ParseAvailableExams(rows: seq<Row>) returns (exams: seq<AvailableExam>)
    ensures exams == ParseRows(rows)
  {
    exams := [];
    for i := 0 to |rows|
      invariant exams == ParseRows(rows[..i])
    {
      assert rows[..i + 1][..i] == rows[..i];
      var row := rows[i];
      if !Present(row.courseCode) || !Present(row.dateRaw) {
        continue;
      }
      var date := ParseExamDate(row.dateRaw.value);
      if date.None? {
        continue;
      }
      var status := NotAvailable;
      if row.signedUp {
        status := Signed;
      }
      if row.available {
        status := Available;
      }
      exams := exams + [AvailableExam(row.courseCode.value, date.value, row.handle, status)];
    }
    assert rows[..|rows|] == rows;
  }

  // ---------------------------------------------------------------------------
  // Already signed targets
  // ---------------------------------------------------------------------------

  /** Record `e` shows that target `t` is already signed up. */
  predicate SignsTarget(e: AvailableExam, t: SnipeExam) {
    e.code == t.code && e.status == Signed && e.date in t.dates
  }

  /** Some record of the listing shows target `t` as signed. */
  predicate IsSecured(t: SnipeExam, exams: seq<AvailableExam>) {
    exists j :: 0 <= j < |exams| && SignsTarget(exams[j], t)
  }

  /** The targets that are already signed, in configuration order. */
  function AlreadySigned(targets: seq<SnipeExam>, exams: seq<AvailableExam>): seq<SnipeExam> {
    if targets == [] then []
    else
      var init := AlreadySigned(targets[..|targets| - 1], exams);
      if IsSecured(targets[|targets| - 1], exams) then init + [targets[|targets| - 1]] else init
  }

  /** The positions of the secured targets, in increasing order. */
  function SecuredPositions(targets: seq<SnipeExam>, exams: seq<AvailableExam>): seq<nat> {
    if targets == [] then []
    else
      var init := SecuredPositions(targets[..|targets| - 1], exams);
      if IsSecured(targets[|targets| - 1], exams) then init + [|targets| - 1] else init
  }

  /**
   * The matcher is an order-preserving filter of the targets: the k-th
   * result is the target at the k-th secured position, a target is picked
   * exactly when it is secured, each target at most once.
   */
  lemma {:induction false} AlreadySignedIsFilter(targets: seq<SnipeExam>, exams: seq<AvailableExam>)
    ensures |AlreadySigned(targets, exams)| == |SecuredPositions(targets, exams)| <= |targets|
    ensures StrictlyIncreasing(SecuredPositions(targets, exams))
    ensures forall k :: 0 <= k < |SecuredPositions(targets, exams)| ==>
              SecuredPositions(targets, exams)[k] < |targets| &&
              AlreadySigned(targets, exams)[k] == targets[SecuredPositions(targets, exams)[k]]
  {
    if targets != [] {
      var init, last := targets[..|targets| - 1], targets[|targets| - 1];
      AlreadySignedIsFilter(init, exams);
      var pos, picked := SecuredPositions(init, exams), AlreadySigned(init, exams);
      assert forall j :: 0 <= j < |init| ==> targets[j] == init[j];
      if IsSecured(last, exams) {
        assert SecuredPositions(targets, exams) == pos + [|targets| - 1];
        assert AlreadySigned(targets, exams) == picked + [last];
        forall k | 0 <= k < |pos| + 1
          ensures (pos + [|targets| - 1])[k] < |targets|
          ensures (picked + [last])[k] == targets[(pos + [|targets| - 1])[k]]
        {
          if k < |pos| {
            assert (pos + [|targets| - 1])[k] == pos[k];
            assert (picked + [last])[k] == picked[k];
          }
        }
      } else {
        assert SecuredPositions(targets, exams) == pos && AlreadySigned(targets, exams) == picked;
      }
    }
  }

  /** The secured positions are exactly the positions of the targets some record secures. */
  lemma {:induction false} SecuredPositionsAreSecured(targets: seq<SnipeExam>, exams: seq<AvailableExam>)
    ensures forall j :: 0 <= j < |targets| ==>
              (IsSecured(targets[j], exams) <==> j in SecuredPositions(targets, exams))
  {
    if targets != [] {
      var init := targets[..|targets| - 1];
      SecuredPositionsAreSecured(init, exams);
      AlreadySignedIsFilter(init, exams);
      assert forall j :: 0 <= j < |init| ==> targets[j] == init[j];
    }
  }

  /** A target value is in the result iff it is configured and secured. */
  lemma {:induction false} AlreadySignedMembers(targets: seq<SnipeExam>, exams: seq<AvailableExam>, t: SnipeExam)
    ensures t in AlreadySigned(targets, exams) <==> t in targets && IsSecured(t, exams)
  {
    if targets != [] {
      var init := targets[..|targets| - 1];
      AlreadySignedMembers(init, exams, t);
      assert targets == init + [targets[|targets| - 1]];
    }
  }

  /** Matching the secured targets against the same listing again changes nothing. */
  lemma {:induction false} AlreadySignedIdempotent(targets: seq<SnipeExam>, exams: seq<AvailableExam>)
    ensures AlreadySigned(AlreadySigned(targets, exams), exams) == AlreadySigned(targets, exams)
  {
    if targets != [] {
      var init := targets[..|targets| - 1];
      var last := targets[|targets| - 1];
      AlreadySignedIdempotent(init, exams);
      var s := AlreadySigned(init, exams);
      if IsSecured(last, exams) {
        assert (s + [last])[..|s + [last]| - 1] == s;
      }
    }
  }

  /**
   * The "fully signed" test of `loadExams`: the number of secured targets
   * equals the number of targets exactly when every target is secured.
   */
  lemma {:induction false} AllSignedIffEveryTargetSecured(targets: seq<SnipeExam>, exams: seq<AvailableExam>)
    ensures |AlreadySigned(targets, exams)| == |targets| <==>
            forall j :: 0 <= j < |targets| ==> IsSecured(targets[j], exams)
  {
    if targets != [] {
      var init, last := targets[..|targets| - 1], targets[|targets| - 1];
      AllSignedIffEveryTargetSecured(init, exams);
      AlreadySignedIsFilter(init, exams);
      if IsSecured(last, exams) {
        assert forall j :: 0 <= j < |init| ==> targets[j] == init[j];
        assert (forall j :: 0 <= j < |targets| ==> IsSecured(targets[j], exams)) <==>
               (forall j :: 0 <= j < |init| ==> IsSecured(init[j], exams));
      } else {
        assert |AlreadySigned(targets, exams)| < |targets|;
        assert !IsSecured(targets[|targets| - 1], exams);
      }
    }
  }

  /** `Utility.getAlreadySignedExams`: the nested first-match scan with `break`. */
  method GetAlreadySignedExams(snipeExams: seq<SnipeExam>, availableExams: seq<AvailableExam>)
    returns (signed: seq<SnipeExam>)
    ensures signed == AlreadySigned(snipeExams, availableExams)
  {
    signed := [];
    for i := 0 to |snipeExams|
      invariant signed == AlreadySigned(snipeExams[..i], availableExams)
    {
      assert snipeExams[..i + 1][..i] == snipeExams[..i];
      var snipeExam := snipeExams[i];
      var found := false;
      for j := 0 to |availableExams|
        invariant !found ==> forall m :: 0 <= m < j ==> !SignsTarget(availableExams[m], snipeExam)
        invariant found ==> IsSecured(snipeExam, availableExams)
        invariant signed == AlreadySigned(snipeExams[..i], availableExams) + (if found then [snipeExam] else [])
      {
        var availableExam := availableExams[j];
        if availableExam.code == snipeExam.code && availableExam.status == Signed
           && availableExam.date in snipeExam.dates {
          signed := signed + [snipeExam];
          found := true;
          break;
        }
      }
    }
    assert snipeExams[..|snipeExams|] == snipeExams;
  }

  // ---------------------------------------------------------------------------
  // Sign-up button
  // ---------------------------------------------------------------------------

  /** A button label reads as the sign-up label once trimmed. */
  predicate IsSignUpLabel(text: string) {
    Trim(text) == SignUpLabel
  }

  /** The position of the first button whose trimmed label is the sign-up label. */
  function FirstSignUp(labels: seq<string>): (r: Option<nat>)
    ensures r.Some? ==> r.value < |labels| && IsSignUpLabel(labels[r.value])
    ensures r.Some? ==> forall j :: 0 <= j < r.value ==> !IsSignUpLabel(labels[j])
    ensures r.None? <==> forall j :: 0 <= j < |labels| ==> !IsSignUpLabel(labels[j])
  {
    if labels == [] then None
    else if IsSignUpLabel(labels[0]) then Some(0)
    else match FirstSignUp(labels[1..])
      case None => None
      case Some(j) => Some(j + 1)
  }

  /** The first matching position is the one `FirstSignUp` finds. */
  lemma {:induction false} FirstSignUpIsFirstMatch(labels: seq<string>, i: nat)
    requires i < |labels| && IsSignUpLabel(labels[i])
    requires forall j :: 0 <= j < i ==> !IsSignUpLabel(labels[j])
    ensures FirstSignUp(labels) == Some(i)
  {
    if i > 0 {
      FirstSignUpIsFirstMatch(labels[1..], i - 1);
    }
  }

  /** A label is the sign-up label exactly when it is "Přihlásit" padded with whitespace. */
  lemma SignUpLabelPadded(text: string)
    ensures IsSignUpLabel(text) <==>
            exists pre, post :: AllWhitespace(pre) && AllWhitespace(post) && text == pre + SignUpLabel + post
  {
    var lead, trail := TrimInfix(text);
    if exists pre, post :: AllWhitespace(pre) && AllWhitespace(post) && text == pre + SignUpLabel + post {
      var pre, post :| AllWhitespace(pre) && AllWhitespace(post) && text == pre + SignUpLabel + post;
      TrimOfPadded(pre, SignUpLabel, post);
    }
  }

  /** `Utility.getSignUpButton` over the labels of the `button.btn-primary` controls. */
  method GetSignUpButton(labels: seq<string>) returns (button: Option<nat>)
    ensures button == FirstSignUp(labels)
  {
    for i := 0 to |labels|
      invariant forall j :: 0 <= j < i ==> !IsSignUpLabel(labels[j])
    {
      var text := Trim(labels[i]);
      if text == SignUpLabel {
        button := Some(i);
        FirstSignUpIsFirstMatch(labels, i);
        return;
      }
    }
    button := None;
  }
}
