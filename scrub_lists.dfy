/** scrub_lists.py: a bot-pattern classifier behind an external address
    validator, the filter-and-count loop over one CSV file, and the file
    listing and 1-based selection of its interactive entry point. */
module ScrubLists {
  import opened Text
  import opened Csv

  const EmailFolder: string := "email"
  const CleanedPrefix: string := "CLEANED_"

  /** email.split('@')[0]: the text before the first '@'. */
  function Username(email: string): (u: string)
    ensures '@' !in u && u <= email
    ensures '@' in email ==> email[|u|] == '@'
  {
    SplitHead(email, '@');
    Split(email, '@')[0]
  }

  /** The username of a local part followed by '@' and anything is that local part. */
  lemma UsernameOf(local: string, rest: string)
    requires '@' !in local
    ensures Username(local + "@" + rest) == local
  {
    var s := local + "@" + rest;
    assert s[..|local|] == local;
    assert s[|local|] == '@';
    assert '@' in s;
  }

  /** normalize_and_validate. `validates` stands for validate_email with
      its deliverability check: true when it returns, false when it raises
      EmailNotValidError. */
  function NormalizeAndValidate(email: string, validates: string -> bool): (r: (bool, string))
    ensures r.0 <==> r.1 == "valid"
    ensures r.1 == "valid" || r.1 == "invalid" || r.1 == "bot_pattern"
    ensures r.1 == "invalid" <==> !validates(email)
    ensures r.1 == "bot_pattern" <==> validates(email) && ('+' in Username(email) || Count(Username(email), '.') > 3)
  {
    if !validates(email) then (false, "invalid")
    else
      var username := Username(email);
      if '+' in username || Count(username, '.') > 3 then (false, "bot_pattern")
      else (true, "valid")
  }

  /** The bot test looks only at the part before the first '@': two
      addresses with the same local part get the same verdict when the
      validator accepts both. */
  lemma VerdictIgnoresDomain(local: string, d1: string, d2: string, validates: string -> bool)
    requires '@' !in local
    requires validates(local + "@" + d1) && validates(local + "@" + d2)
    ensures NormalizeAndValidate(local + "@" + d1, validates) == NormalizeAndValidate(local + "@" + d2, validates)
  {
    UsernameOf(local, d1);
    UsernameOf(local, d2);
  }

  /** Three dots and no '+' in the local part is still a valid address. */
  lemma ThreeDotsValid(local: string, domain: string, validates: string -> bool)
    requires '@' !in local && '+' !in local && Count(local, '.') == 3
    requires validates(local + "@" + domain)
    ensures NormalizeAndValidate(local + "@" + domain, validates) == (true, "valid")
  {
    UsernameOf(local, domain);
  }

  /** row.get(email_key, "").strip(): the address has no surrounding
      whitespace, and it is empty exactly when the cell is missing or holds
      only whitespace (such rows are skipped). */
  function Address(row: Row, key: string): (a: string)
    ensures a == [] || (!IsSpace(a[0]) && !IsSpace(a[|a| - 1]))
    ensures a == [] <==> key !in row || forall i :: 0 <= i < |row[key]| ==> IsSpace(row[key][i])
  {
    var cell := if key in row then row[key] else "";
    StripEmpty(cell);
    Strip(cell)
  }

  /** The address of each row as a function, for the generic loop below. */
  function AddressOf(key: string): (f: Row -> string)
    ensures forall row :: f(row) == Address(row, key)
    ensures forall row :: f(row) == [] <==> key !in row || forall i :: 0 <= i < |row[key]| ==> IsSpace(row[key][i])
  {
    row => Address(row, key)
  }

  /** A row with a non-empty address whose verdict has the given status. */
  predicate Counted<R>(row: R, address: R -> string, validates: string -> bool, status: string) {
    address(row) != "" && NormalizeAndValidate(address(row), validates).1 == status
  }

  /** The rows cleaned_data receives: those with a non-empty address whose
      verdict is valid, verbatim and in order. */
  function Kept<R>(rows: seq<R>, address: R -> string, validates: string -> bool): (kept: seq<R>)
    ensures |kept| <= |rows|
  {
    if rows == [] then []
    else
      var n := |rows| - 1;
      var last := rows[n];
      Kept(rows[..n], address, validates) +
        (if Counted(last, address, validates, "valid") then [last] else [])
  }

  /** How many rows with a non-empty address get the given status. */
  function Tally<R>(rows: seq<R>, address: R -> string, validates: string -> bool, status: string): (n: nat)
    ensures n <= |rows|
  {
    if rows == [] then 0
    else
      var n := |rows| - 1;
      Tally(rows[..n], address, validates, status) +
        (if Counted(rows[n], address, validates, status) then 1 else 0)
  }

  /** How many rows are skipped because their address is empty once stripped. */
  function Blanks<R>(rows: seq<R>, address: R -> string): (n: nat)
    ensures n <= |rows|
  {
    if rows == [] then 0
    else
      var n := |rows| - 1;
      Blanks(rows[..n], address) + (if address(rows[n]) == "" then 1 else 0)
  }

  /** Every row is skipped or counted under exactly one status, and the
      valid ones are exactly the kept ones. */
  lemma {:induction false} TallyBalance<R>(rows: seq<R>, address: R -> string, validates: string -> bool)
    ensures |Kept(rows, address, validates)| == Tally(rows, address, validates, "valid")
    ensures Tally(rows, address, validates, "valid") + Tally(rows, address, validates, "invalid")
              + Tally(rows, address, validates, "bot_pattern") + Blanks(rows, address) == |rows|
  {
    if rows != [] {
      TallyBalance(rows[..|rows| - 1], address, validates);
    }
  }

  /** Only rows of the input with a non-empty address and a valid verdict are kept. */
  lemma {:induction false} KeptSound<R>(rows: seq<R>, address: R -> string, validates: string -> bool)
    ensures forall r :: r in Kept(rows, address, validates) ==> r in rows && Counted(r, address, validates, "valid")
  {
    if rows != [] {
      var n := |rows| - 1;
      KeptSound(rows[..n], address, validates);
      assert rows == rows[..n] + [rows[n]];
    }
  }

  /** Every row with a non-empty address and a valid verdict is kept. */
  lemma {:induction false} KeptComplete<R>(rows: seq<R>, address: R -> string, validates: string -> bool)
    ensures forall i :: 0 <= i < |rows| && Counted(rows[i], address, validates, "valid") ==> rows[i] in Kept(rows, address, validates)
  {
    if rows != [] {
      var n := |rows| - 1;
      KeptComplete(rows[..n], address, validates);
      forall i | 0 <= i < |rows| && Counted(rows[i], address, validates, "valid")
        ensures rows[i] in Kept(rows, address, validates)
      {
        if i < n {
          assert rows[..n][i] == rows[i];
        }
      }
    }
  }

  /** One more row extends each tally by that row alone. */
  lemma ScrubStep<R>(rows: seq<R>, i: nat, address: R -> string, validates: string -> bool)
    requires i < |rows|
    ensures Kept(rows[..i + 1], address, validates) ==
              Kept(rows[..i], address, validates) + (if Counted(rows[i], address, validates, "valid") then [rows[i]] else [])
    ensures forall status :: Tally(rows[..i + 1], address, validates, status) ==
              Tally(rows[..i], address, validates, status) + (if Counted(rows[i], address, validates, status) then 1 else 0)
  {
    assert rows[..i + 1][..i] == rows[..i];
  }

  /** The loop of scrub_csv over the data rows; address gives the stripped
      email value of a row. */
  method ScrubRows<R>(rows: seq<R>, address: R -> string, validates: string -> bool)
    returns (cleaned: seq<R>, valid: nat, invalid: nat, bots: nat)
    ensures cleaned == Kept(rows, address, validates)
    ensures valid == |cleaned|
    ensures invalid == Tally(rows, address, validates, "invalid")
    ensures bots == Tally(rows, address, validates, "bot_pattern")
    ensures valid + invalid + bots + Blanks(rows, address) == |rows|
  {
    cleaned, valid, invalid, bots := [], 0, 0, 0;
    var i := 0;
    while i < |rows|
      invariant 0 <= i <= |rows|
      invariant cleaned == Kept(rows[..i], address, validates)
      invariant valid == |cleaned|
      invariant invalid == Tally(rows[..i], address, validates, "invalid")
      invariant bots == Tally(rows[..i], address, validates, "bot_pattern")
    {
      ScrubStep(rows, i, address, validates);
      var row := rows[i];
      var email := address(row);
      if email != [] {
        var (isValid, status) := NormalizeAndValidate(email, validates);
        if isValid {
          cleaned := cleaned + [row];
          valid := valid + 1;
        } else if status == "bot_pattern" {
          bots := bots + 1;
        } else {
          invalid := invalid + 1;
        }
      }
      i := i + 1;
    }
    assert rows[..i] == rows;
    TallyBalance(rows, address, validates);
  }

  datatype ScrubOutcome =
    | NoEmailColumn             // no header reads "email" in any case; nothing is written
    | Scrubbed(output: string, fieldnames: seq<string>, cleaned: seq<Row>,
               valid: nat, invalid: nat, bots: nat)

  /** os.path.join(EMAIL_FOLDER, f"CLEANED_{filename}"): the output lies in
      the folder, is named after the input, and carries the prefix that the
      file listing excludes, so a cleaned file is never offered again. */
  function OutputPath(filename: string): (path: string)
    ensures StartsWith(path, EmailFolder + "/") && EndsWith(path, filename)
    ensures StartsWith(path[|EmailFolder| + 1..], CleanedPrefix)
  {
    EmailFolder + "/" + CleanedPrefix + filename
  }

  /** What scrub_csv writes for one file with these headers and rows. */
  function ScrubResult(filename: string, headers: seq<string>, rows: seq<Row>,
                       validates: string -> bool): (out: ScrubOutcome)
    ensures out.NoEmailColumn? <==> EmailColumn(headers).None?
  {
    match EmailColumn(headers)
    case None => NoEmailColumn
    case Some(c) =>
      var key := headers[c];
      var kept := Kept(rows, AddressOf(key), validates);
      Scrubbed(OutputPath(filename), headers, kept, |kept|,
               Tally(rows, AddressOf(key), validates, "invalid"), Tally(rows, AddressOf(key), validates, "bot_pattern"))
  }

  /** scrub_csv */
  method ScrubCsv(filename: string, headers: seq<string>, rows: seq<Row>, validates: string -> bool)
    returns (out: ScrubOutcome)
    ensures out == ScrubResult(filename, headers, rows, validates)
    ensures out.Scrubbed? ==> out.valid + out.invalid + out.bots <= |rows|
  {
    var col := EmailColumn(headers);
    if col.None? {
      return NoEmailColumn;
    }
    var key := headers[col.value];
    var cleaned, valid, invalid, bots := ScrubRows(rows, AddressOf(key), validates);
    out := Scrubbed(OutputPath(filename), headers, cleaned, valid, invalid, bots);
  }

  /** The file listing main offers: names ending in ".csv" that do not
      start with "CLEANED_", in listing order. */
  function OfferedFiles(listing: seq<string>): (files: seq<string>)
    ensures |files| <= |listing|
    ensures forall f :: f in files <==> f in listing && EndsWith(f, ".csv") && !StartsWith(f, CleanedPrefix)
  {
    if listing == [] then []
    else
      var n := |listing| - 1;
      var f := listing[n];
      assert listing == listing[..n] + [f];
      OfferedFiles(listing[..n]) + (if EndsWith(f, ".csv") && !StartsWith(f, CleanedPrefix) then [f] else [])
  }

  predicate IsDigit(c: char) {
    '0' <= c <= '9'
  }

  predicate AllDigits(s: string) {
    forall i :: 0 <= i < |s| ==> IsDigit(s[i])
  }

  /** The value of a decimal numeral. */
  function DigitsValue(s: string): nat
    requires AllDigits(s)
  {
    if s == [] then 0
    else DigitsValue(s[..|s| - 1]) * 10 + (s[|s| - 1] as int - '0' as int)
  }

  /** The numeral without leading zeros that writes n. */
  function Digits(n: nat): (s: string)
    ensures s != [] && AllDigits(s)
  {
    if n < 10 then [('0' as int + n) as char]
    else Digits(n / 10) + [('0' as int + n % 10) as char]
  }

  /** Python's int() on a stripped token: an optional sign and one or more
      ASCII digits; anything else is the ValueError, None. */
  function ParseInt(t: string): (r: Option<int>)
    ensures r.Some? <==> t != [] && (t[0] in "+-" ==> |t| >= 2)
                         && forall i :: (if t[0] in "+-" then 1 else 0) <= i < |t| ==> IsDigit(t[i])
    ensures r.Some? ==> (r.value < 0 ==> t[0] == '-')
    ensures r.Some? && t[0] in "+-" ==>
              r.value == (if t[0] == '-' then -(DigitsValue(t[1..]) as int) else DigitsValue(t[1..]))
    ensures (t != [] && AllDigits(t)) ==> r == Some(DigitsValue(t))
  {
    var neg := t != [] && t[0] == '-';
    var start := if t != [] && (t[0] == '-' || t[0] == '+') then 1 else 0;
    var body := t[start..];
    assert forall i :: start <= i < |t| ==> t[i] == body[i - start];
    if body == [] || !AllDigits(body) then None
    else
      var v: int := DigitsValue(body);
      Some(if neg then -v else v)
  }

  /** The decimal text of n, with a minus sign when n is negative. */
  function Render(n: int): string {
    if n < 0 then "-" + Digits(-n) else Digits(n)
  }

  lemma {:induction false} DigitsRoundTrip(n: nat)
    ensures DigitsValue(Digits(n)) == n
  {
    if n >= 10 {
      DigitsRoundTrip(n / 10);
      var s := Digits(n);
      assert s[..|s| - 1] == Digits(n / 10);
    }
  }

  /** A decimal numeral holds no comma and no whitespace. */
  lemma RenderPlain(n: int)
    ensures Render(n) != [] && ',' !in Render(n)
    ensures !IsSpace(Render(n)[0]) && !IsSpace(Render(n)[|Render(n)| - 1])
  {
    var d := if n < 0 then Digits(-n) else Digits(n);
    assert Render(n) == d || Render(n) == "-" + d;
    assert forall c :: c in Render(n) ==> c == '-' || IsDigit(c);
  }

  /** int() reads back every integer written in decimal. */
  lemma ParseRender(n: int)
    ensures ParseInt(Render(n)) == Some(n)
  {
    if n < 0 {
      DigitsRoundTrip(-n);
      assert ("-" + Digits(-n))[1..] == Digits(-n);
    } else {
      DigitsRoundTrip(n);
    }
  }

  lemma ParseRenderAll()
    ensures forall n :: ParseInt(Render(n)) == Some(n)
  {
    forall n {
      ParseRender(n);
    }
  }

  /** int(x.strip()) for every token. */
  function Readings(tokens: seq<string>): (xs: seq<Option<int>>)
    ensures |xs| == |tokens|
    ensures forall i :: 0 <= i < |tokens| ==> xs[i] == ParseInt(Strip(tokens[i]))
    ensures forall i, n :: 0 <= i < |tokens| && Strip(tokens[i]) == Render(n) ==> xs[i] == Some(n)
  {
    ParseRenderAll();
    seq(|tokens|, i requires 0 <= i < |tokens| => ParseInt(Strip(tokens[i])))
  }

  /** The readings less one, or None as soon as one of them failed. */
  function Collect(xs: seq<Option<int>>): (r: Option<seq<int>>)
    ensures r.Some? ==> |r.value| == |xs| && forall i :: 0 <= i < |xs| ==> xs[i] == Some(r.value[i] + 1)
    ensures r.None? <==> exists i :: 0 <= i < |xs| && xs[i].None?
  {
    if xs == [] then Some([])
    else
      assert forall i :: 0 < i < |xs| ==> xs[1..][i - 1] == xs[i];
      match xs[0]
      case None => None
      case Some(k) =>
        match Collect(xs[1..])
        case None => None
        case Some(rest) => Some([k - 1] + rest)
  }

  /** A single reading k gives the single index k - 1. */
  lemma CollectOne(k: int)
    ensures Collect([Some(k)]) == Some([k - 1])
  {
    var xs := [Some(k)];
    assert xs[1..] == [];
    assert Collect(xs[1..]) == Some([]);
    assert [k - 1] + [] == [k - 1];
  }

  /** [int(x.strip()) - 1 for x in tokens]: the 0-based indices, or None
      (the ValueError) when any token is not an integer. */
  function ParseTokens(tokens: seq<string>): (r: Option<seq<int>>)
    ensures r.None? <==> exists i :: 0 <= i < |tokens| && ParseInt(Strip(tokens[i])).None?
    ensures r.Some? ==> |r.value| == |tokens|
    ensures r.Some? ==> forall i :: 0 <= i < |tokens| ==> ParseInt(Strip(tokens[i])) == Some(r.value[i] + 1)
  {
    Collect(Readings(tokens))
  }

  /** The offered files at the entered indices, in the order entered;
      an index outside the list selects nothing. */
  function SelectFiles(files: seq<string>, indices: seq<int>): (sel: seq<string>)
    ensures |sel| <= |indices|
    ensures forall f :: f in sel ==> f in files
  {
    if indices == [] then []
    else
      var n := |indices| - 1;
      var i := indices[n];
      SelectFiles(files, indices[..n]) + (if 0 <= i < |files| then [files[i]] else [])
  }

  /** When every index is in range, the selection is the files at those
      indices, in the order entered and with repeats. */
  lemma {:induction false} SelectInRange(files: seq<string>, indices: seq<int>)
    requires forall j :: 0 <= j < |indices| ==> 0 <= indices[j] < |files|
    ensures |SelectFiles(files, indices)| == |indices|
    ensures forall j :: 0 <= j < |indices| ==> SelectFiles(files, indices)[j] == files[indices[j]]
  {
    if indices != [] {
      SelectInRange(files, indices[..|indices| - 1]);
    }
  }

  /** The selection is empty exactly when no index is in range. */
  lemma {:induction false} SelectEmpty(files: seq<string>, indices: seq<int>)
    ensures SelectFiles(files, indices) == [] <==> forall j :: 0 <= j < |indices| ==> !(0 <= indices[j] < |files|)
  {
    if indices != [] {
      var n := |indices| - 1;
      SelectEmpty(files, indices[..n]);
      assert forall j :: 0 <= j < n ==> indices[..n][j] == indices[j];
    }
  }

  /** Selecting for two choices one after the other selects for each in
      turn, so out-of-range entries drop out between in-range ones. */
  lemma {:induction false} SelectAppend(files: seq<string>, a: seq<int>, b: seq<int>)
    ensures SelectFiles(files, a + b) == SelectFiles(files, a) + SelectFiles(files, b)
    decreases |b|
  {
    if b == [] {
      assert a + b == a;
    } else {
      var n := |b| - 1;
      assert (a + b)[..|a + b| - 1] == a + b[..n];
      assert (a + b)[|a + b| - 1] == b[n];
      SelectAppend(files, a, b[..n]);
    }
  }

  datatype Plan =
    | FolderMissing                                 // no "email" folder
    | NoCsvFiles                                    // nothing to offer
    | BadNumbers(offered: seq<string>)              // a token is not an integer
    | EmptySelection(offered: seq<string>)          // no entered number is in range
    | Scrub(offered: seq<string>, selected: seq<string>)

  /** What main decides before any file is scrubbed: `listing` is the
      folder listing and `selection` the text typed at the prompt. */
  function PlanScrub(folderExists: bool, listing: seq<string>, selection: string): (p: Plan)
    ensures !folderExists <==> p.FolderMissing?
    ensures p.NoCsvFiles? <==> folderExists && OfferedFiles(listing) == []
    ensures p.BadNumbers? <==> folderExists && OfferedFiles(listing) != [] && ParseTokens(Split(selection, ',')).None?
    ensures p.EmptySelection? <==> folderExists && OfferedFiles(listing) != [] && ParseTokens(Split(selection, ',')).Some?
                                   && SelectFiles(OfferedFiles(listing), ParseTokens(Split(selection, ',')).value) == []
    ensures p.EmptySelection? || p.BadNumbers? ==> p.offered == OfferedFiles(listing)
    ensures p.Scrub? <==> folderExists && OfferedFiles(listing) != [] && ParseTokens(Split(selection, ',')).Some?
                          && SelectFiles(OfferedFiles(listing), ParseTokens(Split(selection, ',')).value) != []
    ensures p.Scrub? ==> p.offered == OfferedFiles(listing) && p.selected != []
    ensures p.Scrub? ==> ParseTokens(Split(selection, ',')).Some?
                         && p.selected == SelectFiles(p.offered, ParseTokens(Split(selection, ',')).value)
  {
    if !folderExists then FolderMissing
    else
      var files := OfferedFiles(listing);
      if files == [] then NoCsvFiles
      else match ParseTokens(Split(selection, ','))
        case None => BadNumbers(files)
        case Some(indices) =>
          var selected := SelectFiles(files, indices);
          if selected == [] then EmptySelection(files) else Scrub(files, selected)
  }

  /** Every selected file is one on offer: a .csv file that is not itself
      a cleaned output. */
  lemma SelectedAreOffered(folderExists: bool, listing: seq<string>, selection: string)
    requires PlanScrub(folderExists, listing, selection).Scrub?
    ensures forall f :: f in PlanScrub(folderExists, listing, selection).selected ==>
              f in listing && EndsWith(f, ".csv") && !StartsWith(f, CleanedPrefix)
  {
  }

  /** Typing the numeral of k alone gives the single index k - 1. */
  lemma ChoiceOfNumber(k: int)
    ensures ParseTokens(Split(Render(k), ',')) == Some([k - 1])
  {
    var t := Render(k);
    RenderPlain(k);
    assert Split(t, ',') == [t];
    StripNoop(t);
    ParseRender(k);
    assert Readings([t]) == [Some(k)];
    CollectOne(k);
  }

  /** Typing the number k picks the k-th offered file: numbering starts at 1. */
  lemma SelectOneBased(listing: seq<string>, k: int)
    requires 1 <= k <= |OfferedFiles(listing)|
    ensures PlanScrub(true, listing, Render(k)) == Scrub(OfferedFiles(listing), [OfferedFiles(listing)[k - 1]])
  {
    ChoiceOfNumber(k);
    var files := OfferedFiles(listing);
    assert SelectFiles(files, [k - 1]) == SelectFiles(files, []) + [files[k - 1]];
  }

  /** Typing 0 or a negative number selects nothing. */
  lemma SelectNonPositive(listing: seq<string>, k: int)
    requires k <= 0 && OfferedFiles(listing) != []
    ensures PlanScrub(true, listing, Render(k)) == EmptySelection(OfferedFiles(listing))
  {
    var t := Render(k);
    RenderPlain(k);
    assert Split(t, ',') == [t];
    StripNoop(t);
    ParseRender(k);
    assert Readings([t]) == [Some(k)];
    CollectOne(k);
  }

  /** A CSV file in the folder: its header list and data rows. */
  datatype Table = Table(headers: seq<string>, rows: seq<Row>)

  /** Scrubbing every selected file in turn, one outcome per file. */
  method ScrubSelected(folder: map<string, Table>, selected: seq<string>, validates: string -> bool)
    returns (outs: seq<ScrubOutcome>)
    requires forall f :: f in selected ==> f in folder
    ensures |outs| == |selected|
    ensures forall j :: 0 <= j < |selected| ==>
              outs[j] == ScrubResult(selected[j], folder[selected[j]].headers, folder[selected[j]].rows, validates)
  {
    outs := [];
    for j := 0 to |selected|
      invariant |outs| == j
      invariant forall m :: 0 <= m < j ==>
                  outs[m] == ScrubResult(selected[m], folder[selected[m]].headers, folder[selected[m]].rows, validates)
    {
      var table := folder[selected[j]];
      var out := ScrubCsv(selected[j], table.headers, table.rows, validates);
      outs := outs + [out];
    }
  }
}
