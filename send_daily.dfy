/** send_daily.py: the seven-day Christmas campaign. A run sends the day's
    template to the VIP list, waits, then sends it to the cold list. */
module SendDaily {
  import opened Text
  import opened Csv
  import P = Postmark

  const SenderEmail: string := "contact@mail.anione.me"
  const MessageStream: string := "christmas-campaign"
  const VipFile: string := "postmark_opened_users.csv"
  const ColdFile: string := "cleaned_cold_list.csv"

  /** COLD_LIST_SKIP_DAYS: days that are VIP only. */
  const ColdListSkipDays: seq<int> := []

  /** TEMPLATE_MAP */
  const TemplateMap: map<int, string> := map[
    1 := "xmas-day-1", 2 := "xmas-day-2", 3 := "xmas-day-3", 4 := "xmas-day-4",
    5 := "xmas-day-5", 6 := "xmas-day-6", 7 := "xmas-day-7"]

  /** TEMPLATE_MAP.get(day): exactly days 1 to 7 have a template, and day
      N's alias is "xmas-day-N". */
  function TemplateFor(day: int): (alias: Option<string>)
    ensures alias.Some? <==> 1 <= day <= 7
    ensures alias.Some? ==> alias.value == "xmas-day-" + [('0' as int + day) as char]
  {
    if day in TemplateMap then Some(TemplateMap[day]) else None
  }

  /** The values of column "Email" that are present and non-empty, in file
      order, neither stripped nor deduplicated. */
  function EmailValues(rows: seq<Row>): (emails: seq<string>)
    ensures |emails| <= |rows|
  {
    if rows == [] then []
    else
      var row := rows[|rows| - 1];
      EmailValues(rows[..|rows| - 1]) + (if "Email" in row && row["Email"] != "" then [row["Email"]] else [])
  }

  /** A value is loaded exactly when some row holds it, non-empty, under "Email". */
  lemma {:induction false} EmailValuesMembers(rows: seq<Row>)
    ensures forall v :: v in EmailValues(rows) <==>
              v != "" && exists i :: 0 <= i < |rows| && "Email" in rows[i] && rows[i]["Email"] == v
  {
    if rows != [] {
      var n := |rows| - 1;
      EmailValuesMembers(rows[..n]);
      forall v
        ensures v in EmailValues(rows) <==>
                  v != "" && exists i :: 0 <= i < |rows| && "Email" in rows[i] && rows[i]["Email"] == v
      {
        if v != "" && exists i :: 0 <= i < |rows| && "Email" in rows[i] && rows[i]["Email"] == v {
          var i :| 0 <= i < |rows| && "Email" in rows[i] && rows[i]["Email"] == v;
          if i < n {
            assert rows[..n][i] == rows[i];
          }
        }
        if v in EmailValues(rows[..n]) {
          var i :| 0 <= i < n && "Email" in rows[..n][i] && rows[..n][i]["Email"] == v;
          assert rows[i] == rows[..n][i];
        }
      }
    }
  }

  /** Loading a file is row by row: the values of two consecutive parts of
      a file are the values of the first part followed by those of the
      second, so file order and multiplicity are kept. */
  lemma {:induction false} EmailValuesAppend(a: seq<Row>, b: seq<Row>)
    ensures EmailValues(a + b) == EmailValues(a) + EmailValues(b)
    decreases |b|
  {
    if b == [] {
      assert a + b == a;
    } else {
      var n := |b| - 1;
      assert (a + b)[..|a + b| - 1] == a + b[..n];
      assert (a + b)[|a + b| - 1] == b[n];
      EmailValuesAppend(a, b[..n]);
    }
  }

  /** A single row yields its "Email" value when present and non-empty, and nothing otherwise. */
  lemma EmailValuesOne(r: Row)
    ensures EmailValues([r]) == (if "Email" in r && r["Email"] != "" then [r["Email"]] else [])
  {
    assert [r][..0] == [];
  }

  /** Repeated values are all kept: a list whose rows all hold the same
      address loads it once per row. */
  lemma {:induction false} EmailValuesKeepsRepeats(rows: seq<Row>, v: string)
    requires v != ""
    requires forall i :: 0 <= i < |rows| ==> "Email" in rows[i] && rows[i]["Email"] == v
    ensures EmailValues(rows) == seq(|rows|, _ => v)
  {
    if rows != [] {
      var n := |rows| - 1;
      EmailValuesKeepsRepeats(rows[..n], v);
    }
  }

  /** load_emails. `files` maps each existing file name to its data rows. */
  method LoadEmails(files: map<string, seq<Row>>, filename: string) returns (emails: seq<string>)
    ensures filename !in files ==> emails == []
    ensures filename in files ==> emails == EmailValues(files[filename])
  {
    if filename !in files {
      return [];
    }
    var rows := files[filename];
    emails := [];
    var i := 0;
    while i < |rows|
      invariant 0 <= i <= |rows|
      invariant emails == EmailValues(rows[..i])
    {
      assert rows[..i + 1][..i] == rows[..i];
      var row := rows[i];
      if "Email" in row && row["Email"] != "" {
        emails := emails + [row["Email"]];
      }
      i := i + 1;
    }
    assert rows[..i] == rows;
  }

  /** send_batch: Postmark's batch sender with this script's sender and stream. */
  method SendBatch(emails: seq<string>, alias: string, respond: nat -> P.Response)
    returns (total: nat, posted: seq<P.Payload>)
    ensures posted == P.Posts(emails, alias, SenderEmail, MessageStream)
    ensures total == P.Delivered(emails, respond)
    ensures total <= |emails|
  {
    total, posted := P.SendBatch(emails, alias, SenderEmail, MessageStream, respond);
  }

  /** What a run does, in order. */
  datatype Step =
    | Load(file: string, emails: seq<string>)
    | Send(alias: string, emails: seq<string>, posted: seq<P.Payload>, total: nat)
    | Wait(interrupted: bool)

  /** The list loaded from a file of the folder. */
  function Loaded(files: map<string, seq<Row>>, filename: string): seq<string> {
    if filename in files then EmailValues(files[filename]) else []
  }

  /** One phase: load the list, and send to it when it is non-empty. The
      send reaches every loaded address with the given template. */
  function Phase(files: map<string, seq<Row>>, filename: string, alias: string,
                 respond: nat -> P.Response): (steps: seq<Step>)
    ensures 1 <= |steps| <= 2 && steps[0] == Load(filename, Loaded(files, filename))
    ensures |steps| == 2 <==> Loaded(files, filename) != []
    ensures |steps| == 2 ==> steps[1].Send? && steps[1].alias == alias
                             && P.Recipients(steps[1].posted) == Loaded(files, filename)
                             && steps[1].total <= |Loaded(files, filename)|
    ensures forall st :: st in steps ==> !st.Wait?
  {
    var emails := Loaded(files, filename);
    P.PostsReachEveryone(emails, alias, SenderEmail, MessageStream);
    [Load(filename, emails)] +
      (if emails == [] then []
       else [Send(alias, emails, P.Posts(emails, alias, SenderEmail, MessageStream), P.Delivered(emails, respond))])
  }

  /** The steps of run_campaign(day) when skipDays are the VIP-only days.
      `interrupted` says whether the wait was cut short with Ctrl-C;
      respondVip and respondCold give the server's answers in each phase. */
  function CampaignSteps(day: int, skipDays: seq<int>, files: map<string, seq<Row>>, interrupted: bool,
                         respondVip: nat -> P.Response, respondCold: nat -> P.Response): (steps: seq<Step>)
    ensures steps == [] <==> TemplateFor(day).None?
    ensures steps != [] ==> steps[0] == Load(VipFile, Loaded(files, VipFile))
    ensures Wait(interrupted) in steps <==> TemplateFor(day).Some? && day !in skipDays
    ensures forall st :: st in steps && st.Send? ==> TemplateFor(day) == Some(st.alias)
  {
    match TemplateFor(day)
    case None => []
    case Some(alias) =>
      Phase(files, VipFile, alias, respondVip) +
        (if day in skipDays then []
         else [Wait(interrupted)] + Phase(files, ColdFile, alias, respondCold))
  }

  /** One phase of run_campaign. */
  method RunPhase(files: map<string, seq<Row>>, filename: string, alias: string, respond: nat -> P.Response)
    returns (steps: seq<Step>)
    ensures steps == Phase(files, filename, alias, respond)
  {
    var emails := LoadEmails(files, filename);
    steps := [Load(filename, emails)];
    if emails != [] {
      var count, posted := SendBatch(emails, alias, respond);
      steps := steps + [Send(alias, emails, posted, count)];
    }
  }

  /** run_campaign */
  method RunCampaign(day: int, files: map<string, seq<Row>>, interrupted: bool,
                     respondVip: nat -> P.Response, respondCold: nat -> P.Response)
    returns (steps: seq<Step>)
    ensures steps == CampaignSteps(day, ColdListSkipDays, files, interrupted, respondVip, respondCold)
  {
    var template := TemplateFor(day);
    if template.None? {
      return [];
    }
    var alias := template.value;
    steps := RunPhase(files, VipFile, alias, respondVip);
    if day in ColdListSkipDays {
      return;
    }
    steps := steps + [Wait(interrupted)];
    var cold := RunPhase(files, ColdFile, alias, respondCold);
    steps := steps + cold;
  }

  /** A day without a template loads and sends nothing. */
  lemma NoTemplateNoSteps(day: int, skipDays: seq<int>, files: map<string, seq<Row>>, interrupted: bool,
                          respondVip: nat -> P.Response, respondCold: nat -> P.Response)
    requires !(1 <= day <= 7)
    ensures CampaignSteps(day, skipDays, files, interrupted, respondVip, respondCold) == []
  {
  }

  /** The VIP list gets the day's template exactly when it is non-empty, and
      the send goes to every address of it. */
  lemma VipSendIffNonEmpty(day: int, files: map<string, seq<Row>>, interrupted: bool,
                           respondVip: nat -> P.Response, respondCold: nat -> P.Response)
    requires 1 <= day <= 7
    ensures var steps := CampaignSteps(day, ColdListSkipDays, files, interrupted, respondVip, respondCold);
            |steps| >= 1 && steps[0] == Load(VipFile, Loaded(files, VipFile)) &&
            (steps[1].Send? <==> Loaded(files, VipFile) != [])
    ensures var steps := CampaignSteps(day, ColdListSkipDays, files, interrupted, respondVip, respondCold);
            steps[1].Send? ==> P.Recipients(steps[1].posted) == Loaded(files, VipFile)
                               && steps[1].alias == "xmas-day-" + [('0' as int + day) as char]
  {
    P.PostsReachEveryone(Loaded(files, VipFile), TemplateMap[day], SenderEmail, MessageStream);
  }

  /** A VIP-only day stops after the VIP phase: no wait, no cold list. */
  lemma SkipDayStopsAfterVip(day: int, skipDays: seq<int>, files: map<string, seq<Row>>, interrupted: bool,
                             respondVip: nat -> P.Response, respondCold: nat -> P.Response)
    requires 1 <= day <= 7 && day in skipDays
    ensures CampaignSteps(day, skipDays, files, interrupted, respondVip, respondCold) ==
              Phase(files, VipFile, TemplateMap[day], respondVip)
  {
  }

  /** With no skip days configured, every templated day waits and then runs
      the cold phase with the same template, whether or not the wait was
      interrupted. */
  lemma ColdPhaseFollows(day: int, files: map<string, seq<Row>>, interrupted: bool,
                         respondVip: nat -> P.Response, respondCold: nat -> P.Response)
    requires 1 <= day <= 7
    ensures var vip := Phase(files, VipFile, TemplateMap[day], respondVip);
            CampaignSteps(day, ColdListSkipDays, files, interrupted, respondVip, respondCold) ==
              vip + [Wait(interrupted)] + Phase(files, ColdFile, TemplateMap[day], respondCold)
  {
  }

  /** The interruption changes only the Wait step. */
  lemma InterruptOnlyMarksWait(day: int, files: map<string, seq<Row>>,
                               respondVip: nat -> P.Response, respondCold: nat -> P.Response)
    requires 1 <= day <= 7
    ensures var a := CampaignSteps(day, ColdListSkipDays, files, false, respondVip, respondCold);
            var b := CampaignSteps(day, ColdListSkipDays, files, true, respondVip, respondCold);
            |a| == |b| && forall i :: 0 <= i < |a| && !a[i].Wait? ==> a[i] == b[i]
  {
    ColdPhaseFollows(day, files, false, respondVip, respondCold);
    ColdPhaseFollows(day, files, true, respondVip, respondCold);
  }

  /** confirm.lower() == "yes": the gate accepts "yes" in any mix of case
      and nothing else, no surrounding whitespace, no other word. */
  predicate Confirmed(answer: string)
    ensures Confirmed(answer) <==>
              |answer| == 3 && (answer[0] == 'y' || answer[0] == 'Y')
              && (answer[1] == 'e' || answer[1] == 'E') && (answer[2] == 's' || answer[2] == 'S')
  {
    var l := Lower(answer);
    assert |answer| == 3 ==> l[0] == LowerChar(answer[0]) && l[1] == LowerChar(answer[1]) && l[2] == LowerChar(answer[2]);
    assert l == "yes" ==> l[0] == 'y' && l[1] == 'e' && l[2] == 's';
    l == "yes"
  }

  datatype Outcome =
    | MissingToken            // POSTMARK_SERVER_TOKEN unset or empty: exit status 1
    | Aborted                 // the confirmation was not "yes"
    | Ran(steps: seq<Step>)

  /** The script as a whole: the token check at import, the confirmation
      prompt, then run_campaign(args.day). */
  method Launch(token: Option<string>, day: int, answer: string, files: map<string, seq<Row>>,
                interrupted: bool, respondVip: nat -> P.Response, respondCold: nat -> P.Response)
    returns (out: Outcome)
    ensures out == MissingToken <==> token.None? || token.value == ""
    ensures out == Aborted <==> token.Some? && token.value != "" && !Confirmed(answer)
    ensures out.Ran? ==> Confirmed(answer) && out.steps == CampaignSteps(day, ColdListSkipDays, files, interrupted, respondVip, respondCold)
  {
    if token.None? || token.value == "" {
      return MissingToken;
    }
    if Lower(answer) != "yes" {
      return Aborted;
    }
    var steps := RunCampaign(day, files, interrupted, respondVip, respondCold);
    out := Ran(steps);
  }
}
