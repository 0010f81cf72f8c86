/** deploy_new_year.py: the dated New Year campaign. Today's date selects a
    template and a group of lists; the addresses of those lists are merged
    into one set and sent through the shared batch sender. */
module DeployNewYear {
  import opened Text
  import opened Csv
  import P = Postmark

  const DefaultSender: string := "contact@mail.anione.me"
  const MessageStream: string := "new-year-campaign"
  const EmailFolder: string := "email"

  const FreeApril: string := EmailFolder + "/" + "April_freeUsers.csv"
  const FreeMay: string := EmailFolder + "/" + "May_freeUsers.csv"
  const FreeJune: string := EmailFolder + "/" + "June_freeUsers.csv"
  const FreeJuly: string := EmailFolder + "/" + "July_freeUsers.csv"
  const PaidHigh: seq<string> := [EmailFolder + "/" + "paid_appRegisteredFALSE.csv", EmailFolder + "/" + "paidNoPackage.csv"]
  const AllFree: seq<string> := [FreeApril, FreeMay, FreeJune, FreeJuly]
  const AllLists: seq<string> := AllFree + PaidHigh

  /** An entry of CAMPAIGN_MAP. */
  datatype Campaign = Campaign(template: string, lists: seq<string>)

  const CampaignMap: map<string, Campaign> := map[
    "2025-12-29" := Campaign("ny-gift-day-1", AllLists),
    "2025-12-30" := Campaign("xmas-day-2", [FreeMay]),
    "2025-12-31" := Campaign("xmas-day-2", [FreeApril, FreeJuly]),
    "2026-01-01" := Campaign("nye-countdown-day-4", [FreeJuly] + PaidHigh),
    "2026-01-02" := Campaign("xmas-day-4", [FreeApril, FreeMay]),
    "2026-01-03" := Campaign("xmas-day-4", [FreeJune, FreeJuly]),
    "2026-01-04" := Campaign("ny-gift-2-day-7", AllLists),
    "2026-01-05" := Campaign("token-multiplier-day-8", [FreeJune] + PaidHigh),
    "2026-01-06" := Campaign("multiplier-urgency-day-9", PaidHigh),
    "2026-01-07" := Campaign("final-call-day-10", [FreeJuly] + PaidHigh)]

  /** CAMPAIGN_MAP.get(today): an exact match on the date text. The
      schedule covers ten dates, 2025-12-29 to 2026-01-07, and nothing else
      (a date with a trailing space or in another format finds nothing);
      every scheduled day names at least one list, all among the six known
      files. */
  function CampaignFor(today: string): (c: Option<Campaign>)
    ensures c.Some? <==>
              today in ["2025-12-29", "2025-12-30", "2025-12-31", "2026-01-01", "2026-01-02",
                        "2026-01-03", "2026-01-04", "2026-01-05", "2026-01-06", "2026-01-07"]
    ensures c.Some? ==> c.value.lists != [] && forall f :: f in c.value.lists ==> f in AllLists
  {
    if today in CampaignMap then Some(CampaignMap[today]) else None
  }

  /** What one row contributes: its "email" value, stripped, when that
      value is present and non-empty. Truthiness is tested before stripping. */
  function EmailOf(row: Row): (r: Option<string>)
    ensures r.Some? <==> "email" in row && row["email"] != ""
    ensures r.Some? ==> r.value == [] || (!IsSpace(r.value[0]) && !IsSpace(r.value[|r.value| - 1]))
    ensures r.Some? ==> (r.value == [] <==> forall k :: 0 <= k < |row["email"]| ==> IsSpace(row["email"][k]))
  {
    if "email" in row && row["email"] != "" then
      StripEmpty(row["email"]);
      Some(Strip(row["email"]))
    else None
  }

  /** The values f gives the elements of xs. */
  function Gathered<T>(xs: seq<T>, f: T -> Option<string>): set<string> {
    if xs == [] then {}
    else
      var y := f(xs[|xs| - 1]);
      Gathered(xs[..|xs| - 1], f) + (if y.Some? then {y.value} else {})
  }

  lemma {:induction false} GatheredMembers<T>(xs: seq<T>, f: T -> Option<string>)
    ensures forall v :: v in Gathered(xs, f) <==> exists j :: 0 <= j < |xs| && f(xs[j]) == Some(v)
  {
    if xs != [] {
      var n := |xs| - 1;
      GatheredMembers(xs[..n], f);
      assert forall j :: 0 <= j < n ==> xs[..n][j] == xs[j];
      forall v | exists j :: 0 <= j < |xs| && f(xs[j]) == Some(v)
        ensures v in Gathered(xs, f)
      {
        var j :| 0 <= j < |xs| && f(xs[j]) == Some(v);
        if j < n {
          assert xs[..n][j] == xs[j];
        }
      }
    }
  }

  /** The addresses one file contributes. */
  function FileEmails(rows: seq<Row>): set<string> {
    Gathered(rows, EmailOf)
  }

  /** A file contributes exactly the stripped non-empty values of its rows. */
  lemma FileEmailsMembers(rows: seq<Row>)
    ensures forall v :: v in FileEmails(rows) <==> exists j :: 0 <= j < |rows| && EmailOf(rows[j]) == Some(v)
  {
    GatheredMembers(rows, EmailOf);
  }

  /** The set load_emails builds over the given file names; files that do
      not exist are skipped. */
  function LoadedSet(files: map<string, seq<Row>>, names: seq<string>): (found: set<string>)
    ensures forall i :: 0 <= i < |names| && names[i] in files ==> FileEmails(files[names[i]]) <= found
  {
    if names == [] then {}
    else
      var n := |names| - 1;
      assert forall i :: 0 <= i < n ==> names[..n][i] == names[i];
      LoadedSet(files, names[..n]) + (if names[n] in files then FileEmails(files[names[n]]) else {})
  }

  /** An address is loaded exactly when some existing file among the names
      contributes it. */
  lemma {:induction false} LoadedSetMembers(files: map<string, seq<Row>>, names: seq<string>)
    ensures forall v :: v in LoadedSet(files, names) <==>
              exists i :: 0 <= i < |names| && names[i] in files && v in FileEmails(files[names[i]])
  {
    if names != [] {
      var n := |names| - 1;
      LoadedSetMembers(files, names[..n]);
      assert forall i :: 0 <= i < n ==> names[..n][i] == names[i];
      forall v | exists i :: 0 <= i < |names| && names[i] in files && v in FileEmails(files[names[i]])
        ensures v in LoadedSet(files, names)
      {
        var i :| 0 <= i < |names| && names[i] in files && v in FileEmails(files[names[i]]);
        if i < n {
          assert names[..n][i] == names[i];
        }
      }
    }
  }

  /** A value made only of whitespace passes the truthiness test and is
      loaded as "". */
  lemma WhitespaceValueLoadsEmpty(rows: seq<Row>, j: nat)
    requires j < |rows| && "email" in rows[j] && rows[j]["email"] != ""
    requires forall k :: 0 <= k < |rows[j]["email"]| ==> IsSpace(rows[j]["email"][k])
    ensures "" in FileEmails(rows)
  {
    StripEmpty(rows[j]["email"]);
    assert EmailOf(rows[j]) == Some("");
    FileEmailsMembers(rows);
  }

  /** The column name is matched exactly: a file none of whose rows has a
      column "email" (one headed "Email", say) contributes nothing. */
  lemma {:induction false} NoEmailColumnContributesNothing(rows: seq<Row>)
    requires forall j :: 0 <= j < |rows| ==> "email" !in rows[j]
    ensures FileEmails(rows) == {}
  {
    if rows != [] {
      NoEmailColumnContributesNothing(rows[..|rows| - 1]);
    }
  }

  /** Merging over a + b is merging over a and over b: the set does not
      depend on how the file names are grouped or repeated. */
  lemma {:induction false} LoadedSetAppend(files: map<string, seq<Row>>, a: seq<string>, b: seq<string>)
    ensures LoadedSet(files, a + b) == LoadedSet(files, a) + LoadedSet(files, b)
    decreases |b|
  {
    if b == [] {
      assert a + b == a;
    } else {
      var n := |b| - 1;
      assert (a + b)[..|a + b| - 1] == a + b[..n];
      LoadedSetAppend(files, a, b[..n]);
    }
  }

  /** list(emails): the elements of a set, each once, in some order. */
  method ListOf(s: set<string>) returns (xs: seq<string>)
    ensures |xs| == |s|
    ensures forall v :: v in xs <==> v in s
    ensures forall a, b :: 0 <= a < b < |xs| ==> xs[a] != xs[b]
  {
    xs := [];
    var rest := s;
    while rest != {}
      invariant forall v :: v in s <==> v in xs || v in rest
      invariant forall v :: v in xs ==> v !in rest
      invariant forall a, b :: 0 <= a < b < |xs| ==> xs[a] != xs[b]
      invariant |xs| + |rest| == |s|
      decreases |rest|
    {
      var v :| v in rest;
      xs := xs + [v];
      rest := rest - {v};
    }
  }

  /** The inner loop of load_emails: every row of one file adds its address. */
  method AddFileEmails(found: set<string>, rows: seq<Row>) returns (grown: set<string>)
    ensures grown == found + FileEmails(rows)
  {
    grown := found;
    for j := 0 to |rows|
      invariant grown == found + FileEmails(rows[..j])
    {
      assert rows[..j + 1][..j] == rows[..j];
      var row := rows[j];
      if "email" in row && row["email"] != "" {
        grown := grown + {Strip(row["email"])};
      }
    }
    assert rows[..|rows|] == rows;
  }

  /** load_emails. `files` maps each existing file name to its data rows. */
  method LoadEmails(files: map<string, seq<Row>>, names: seq<string>) returns (emails: seq<string>)
    ensures forall v :: v in emails <==> v in LoadedSet(files, names)
    ensures |emails| == |LoadedSet(files, names)|
    ensures forall a, b :: 0 <= a < b < |emails| ==> emails[a] != emails[b]
  {
    var found: set<string> := {};
    for i := 0 to |names|
      invariant found == LoadedSet(files, names[..i])
    {
      assert names[..i + 1][..i] == names[..i];
      var name := names[i];
      if name in files {
        found := AddFileEmails(found, files[name]);
      }
    }
    assert names[..|names|] == names;
    emails := ListOf(found);
  }

  /** The sender address: the value of SENDER_EMAIL when it is set, and
      the default address otherwise. */
  function Sender(env: Option<string>): (s: string)
    ensures env.None? ==> s == DefaultSender
    ensures env.Some? ==> s == env.value
    ensures s == "" <==> env == Some("")
  {
    match env
    case Some(s) => s
    case None => DefaultSender
  }

  /** send_batch: Postmark's batch sender with this script's stream. */
  method SendBatch(emails: seq<string>, alias: string, sender: string, respond: nat -> P.Response)
    returns (total: nat, posted: seq<P.Payload>)
    ensures posted == P.Posts(emails, alias, sender, MessageStream)
    ensures total == P.Delivered(emails, respond)
    ensures total <= |emails|
  {
    total, posted := P.SendBatch(emails, alias, sender, MessageStream, respond);
  }

  datatype Outcome =
    | MissingToken                       // POSTMARK_SERVER_TOKEN unset or empty: exit status 1
    | NoCampaign                         // nothing scheduled for today
    | NoEmails(campaign: Campaign)       // the day's lists hold no address
    | Delivered(campaign: Campaign, emails: seq<string>, posted: seq<P.Payload>, total: nat)

  /** main. `today` is datetime.now() formatted as YYYY-MM-DD; senderEnv is
      the SENDER_EMAIL variable. */
  method Deploy(token: Option<string>, senderEnv: Option<string>, today: string,
                files: map<string, seq<Row>>, respond: nat -> P.Response)
    returns (out: Outcome)
    ensures out == MissingToken <==> token.None? || token.value == ""
    ensures out == NoCampaign <==> token.Some? && token.value != "" && CampaignFor(today).None?
    ensures out.NoEmails? ==> CampaignFor(today) == Some(out.campaign) && LoadedSet(files, out.campaign.lists) == {}
    ensures out.Delivered? ==>
              && CampaignFor(today) == Some(out.campaign)
              && out.emails != []
              && (forall v :: v in out.emails <==> v in LoadedSet(files, out.campaign.lists))
              && (forall a, b :: 0 <= a < b < |out.emails| ==> out.emails[a] != out.emails[b])
              && out.posted == P.Posts(out.emails, out.campaign.template, Sender(senderEnv), MessageStream)
              && out.total == P.Delivered(out.emails, respond)
              && out.total <= |out.emails|
  {
    if token.None? || token.value == "" {
      return MissingToken;
    }
    var config := CampaignFor(today);
    if config.None? {
      return NoCampaign;
    }
    var campaign := config.value;
    var emails := LoadEmails(files, campaign.lists);
    if emails == [] {
      return NoEmails(campaign);
    }
    var count, posted := SendBatch(emails, campaign.template, Sender(senderEnv), respond);
    out := Delivered(campaign, emails, posted, count);
  }
}
