/**
  The setup wizard (`initQuestions`): nine questions, some shown only for
  earlier answers, a summary table and a confirmation that either starts
  the whole wizard again or saves the answers, and the install batch that
  ends the setup.
*/
module SetupWizard {
  import opened Options
  import opened OrderedDict
  import Batch

  /** An answer as inquirer stores it: the text of an input or list
      prompt, or the boolean of a confirm prompt. */
  datatype Value = Text(s: string) | Flag(b: bool)

  /** The two choices of the storage question. */
  datatype Storage = Local | Cloud

  function StorageName(s: Storage): string
  {
    if s == Cloud then "Cloud" else "Local"
  }

  /** The value the operator ends up giving at each question, were it
      shown (for a validated question, the first attempt its validator
      accepts). */
  datatype Replies = Replies(storage: Storage, uploadAmount: bool, domainConfirm: bool,
                             domain: string, email: string, apiKey: string, zoneId: string,
                             authelia: bool, dashboard: bool)

  datatype Question = StorageQ | UploadAmountQ | DomainConfirmQ | DomainQ | EmailQ | ApiKeyQ | ZoneQ | AutheliaQ | DashboardQ

  /** The questions in the order of the prompt at line 19. */
  const Questions: seq<Question> := [StorageQ, UploadAmountQ, DomainConfirmQ, DomainQ, EmailQ, ApiKeyQ, ZoneQ, AutheliaQ, DashboardQ]

  function Key(q: Question): string
  {
    match q
    case StorageQ => "storage"
    case UploadAmountQ => "uploadAmount"
    case DomainConfirmQ => "domainConfirm"
    case DomainQ => "domain"
    case EmailQ => "cloudflare_email"
    case ApiKeyQ => "cloudflare_global_api"
    case ZoneQ => "cloudflare_zone_id"
    case AutheliaQ => "authelia"
    case DashboardQ => "sb_dashboard"
  }

  function Reply(r: Replies, q: Question): Value
  {
    match q
    case StorageQ => Text(StorageName(r.storage))
    case UploadAmountQ => Flag(r.uploadAmount)
    case DomainConfirmQ => Flag(r.domainConfirm)
    case DomainQ => Text(r.domain)
    case EmailQ => Text(r.email)
    case ApiKeyQ => Text(r.apiKey)
    case ZoneQ => Text(r.zoneId)
    case AutheliaQ => Flag(r.authelia)
    case DashboardQ => Flag(r.dashboard)
  }

  /** JavaScript truthiness of an answer; a missing one is `undefined`. */
  predicate Truthy(v: Option<Value>)
  {
    match v
    case None => false
    case Some(Text(s)) => s != ""
    case Some(Flag(b)) => b
  }

  /** The `when` callbacks, over the answers given so far. */
  predicate Visible(q: Question, answers: Dict<Value>)
  {
    match q
    case UploadAmountQ | DomainConfirmQ => Get(answers, "storage") == Some(Text("Cloud"))
    case DomainQ | EmailQ | ApiKeyQ | ZoneQ =>
      Get(answers, "storage") == Some(Text("Cloud")) && Truthy(Get(answers, "domainConfirm"))
    case StorageQ | AutheliaQ | DashboardQ => true
  }

  /** One question: asked, and its answer recorded under its name, when
      its `when` holds for the answers so far; skipped otherwise. */
  function Ask(acc: Dict<Value>, q: Question, r: Replies): Dict<Value>
  {
    if Visible(q, acc) then Put(acc, Key(q), Reply(r, q)) else acc
  }

  /** inquirer walks the questions in order. */
  function Collect(qs: seq<Question>, r: Replies): Dict<Value>
  {
    if qs == [] then [] else Ask(Collect(qs[..|qs| - 1], r), qs[|qs| - 1], r)
  }

  /** Whether a question is asked, in terms of the replies alone: upload
      amount and the domain question exactly for Cloud storage, the domain
      and CloudFlare questions exactly for Cloud storage with a domain, the
      rest always. */
  predicate Asked(q: Question, r: Replies)
  {
    match q
    case UploadAmountQ | DomainConfirmQ => r.storage == Cloud
    case DomainQ | EmailQ | ApiKeyQ | ZoneQ => r.storage == Cloud && r.domainConfirm
    case StorageQ | AutheliaQ | DashboardQ => true
  }

  /** The reference answers: the reply of every asked question, in question
      order, under the question's name. */
  function AskedAnswers(qs: seq<Question>, r: Replies): Dict<Value>
  {
    if qs == [] then []
    else
      var n := |qs| - 1;
      AskedAnswers(qs[..n], r) + (if Asked(qs[n], r) then [(Key(qs[n]), Reply(r, qs[n]))] else [])
  }

  lemma KeyInjective(q1: Question, q2: Question)
    requires Key(q1) == Key(q2)
    ensures q1 == q2
  {
  }

  ghost predicate NoRepeats(qs: seq<Question>)
  {
    forall i, j :: 0 <= i < j < |qs| ==> qs[i] != qs[j]
  }

  /** The `when` of these reads the storage answer. */
  predicate ReadsStorage(q: Question)
  {
    q in {UploadAmountQ, DomainConfirmQ, DomainQ, EmailQ, ApiKeyQ, ZoneQ}
  }

  /** The `when` of these reads the domain answer too. */
  predicate ReadsDomainConfirm(q: Question)
  {
    q in {DomainQ, EmailQ, ApiKeyQ, ZoneQ}
  }

  /** Every callback reads only answers asked before it, and no question
      comes twice. */
  ghost predicate WellOrdered(qs: seq<Question>)
  {
    NoRepeats(qs)
    && (forall i :: 0 <= i < |qs| && ReadsStorage(qs[i]) ==> StorageQ in qs[..i])
    && (forall i :: 0 <= i < |qs| && ReadsDomainConfirm(qs[i]) ==> DomainConfirmQ in qs[..i])
  }

  /** In the reference answers, a question's name holds its reply exactly
      when it is among the questions and asked. */
  lemma {:induction false} AskedAnswersGet(qs: seq<Question>, r: Replies, q: Question)
    requires NoRepeats(qs)
    ensures Get(AskedAnswers(qs, r), Key(q)) == if q in qs && Asked(q, r) then Some(Reply(r, q)) else None
  {
    if qs != [] {
      var n := |qs| - 1;
      var pre, p := qs[..n], qs[n];
      assert NoRepeats(pre) by {
        forall i, j | 0 <= i < j < n ensures pre[i] != pre[j] {
          assert pre[i] == qs[i] && pre[j] == qs[j];
        }
      }
      assert p !in pre by {
        forall i | 0 <= i < n ensures pre[i] != p {
          assert pre[i] == qs[i];
        }
      }
      assert q in qs <==> q in pre || q == p by {
        assert qs == pre + [p];
      }
      AskedAnswersGet(pre, r, q);
      var before := AskedAnswers(pre, r);
      var last: Dict<Value> := if Asked(p, r) then [(Key(p), Reply(r, p))] else [];
      assert AskedAnswers(qs, r) == before + last;
      GetAppend(before, last, Key(q));
      LastAnswerGet(p, q, r);
      if q in pre {
        assert q != p;
      }
    }
  }

  /** The entry one question adds holds that question's name only. */
  lemma LastAnswerGet(p: Question, q: Question, r: Replies)
    ensures Get(if Asked(p, r) then [(Key(p), Reply(r, p))] else [], Key(q)) ==
      if q == p && Asked(p, r) then Some(Reply(r, p)) else None
  {
    if Asked(p, r) {
      GetSingle(Key(p), Reply(r, p), Key(q));
      if Key(p) == Key(q) {
        KeyInjective(p, q);
      }
    }
  }

  /** A question's place in the prompt. */
  function Rank(q: Question): nat
  {
    match q
    case StorageQ => 0
    case UploadAmountQ => 1
    case DomainConfirmQ => 2
    case DomainQ => 3
    case EmailQ => 4
    case ApiKeyQ => 5
    case ZoneQ => 6
    case AutheliaQ => 7
    case DashboardQ => 8
  }

  lemma QuestionsWellOrdered()
    ensures WellOrdered(Questions)
  {
    var q := Questions;
    assert forall i :: 0 <= i < |q| ==> Rank(q[i]) == i;
    forall i | 0 <= i < |q| && ReadsStorage(q[i]) ensures StorageQ in q[..i] {
      assert 0 < i && q[..i][0] == StorageQ;
    }
    forall i | 0 <= i < |q| && ReadsDomainConfirm(q[i]) ensures DomainConfirmQ in q[..i] {
      assert 2 < i && q[..i][2] == DomainConfirmQ;
    }
  }

  /** One question, once the storage answer and (for Cloud) the domain
      answer are recorded as the replies say: its `when` agrees with
      `Asked`, and its answer goes last. */
  lemma AskStep(acc: Dict<Value>, q: Question, r: Replies)
    requires Get(acc, Key(q)) == None
    requires ReadsStorage(q) ==> Get(acc, "storage") == Some(Text(StorageName(r.storage)))
    requires ReadsDomainConfirm(q) ==>
      Get(acc, "domainConfirm") == if r.storage == Cloud then Some(Flag(r.domainConfirm)) else None
    ensures Ask(acc, q, r) == acc + if Asked(q, r) then [(Key(q), Reply(r, q))] else []
  {
    assert Visible(q, acc) == Asked(q, r);
    if Asked(q, r) {
      PutNew(acc, Key(q), Reply(r, q));
    } else {
      assert acc + [] == acc;
    }
  }

  /** Dropping the last of well-ordered questions leaves them well ordered,
      and the last one's callback reads only answers among the rest. */
  lemma WellOrderedPrefix(qs: seq<Question>)
    requires WellOrdered(qs) && qs != []
    ensures var n := |qs| - 1;
      WellOrdered(qs[..n]) && qs[n] !in qs[..n]
      && (ReadsStorage(qs[n]) ==> StorageQ in qs[..n])
      && (ReadsDomainConfirm(qs[n]) ==> DomainConfirmQ in qs[..n])
  {
    var n := |qs| - 1;
    var pre := qs[..n];
    forall i | 0 <= i < n ensures pre[..i] == qs[..i] {}
    assert qs[n] !in pre by {
      forall i | 0 <= i < n ensures pre[i] != qs[n] {
        assert pre[i] == qs[i];
      }
    }
  }

  /** Walking well-ordered questions with their `when` callbacks gives the
      reference answers. */
  lemma {:induction false} CollectOrdered(qs: seq<Question>, r: Replies)
    requires WellOrdered(qs)
    ensures Collect(qs, r) == AskedAnswers(qs, r)
  {
    if qs != [] {
      var n := |qs| - 1;
      var pre, q := qs[..n], qs[n];
      WellOrderedPrefix(qs);
      CollectOrdered(pre, r);
      var acc := AskedAnswers(pre, r);
      AskedAnswersGet(pre, r, q);
      AskedAnswersGet(pre, r, StorageQ);
      AskedAnswersGet(pre, r, DomainConfirmQ);
      AskStep(acc, q, r);
    }
  }

  /** Walking the questions with their `when` callbacks gives the
      reference answers. */
  lemma CollectIsAskedAnswers(r: Replies)
    ensures Collect(Questions, r) == AskedAnswers(Questions, r)
  {
    QuestionsWellOrdered();
    CollectOrdered(Questions, r);
  }

  /** Which questions are asked: a skipped question leaves no key, and an
      asked one holds its reply. */
  lemma AskedQuestions(r: Replies, q: Question)
    ensures Get(Collect(Questions, r), Key(q)) == if Asked(q, r) then Some(Reply(r, q)) else None
  {
    CollectIsAskedAnswers(r);
    QuestionsWellOrdered();
    AskedAnswersGet(Questions, r, q);
  }

  lemma {:induction false} AskedAnswersKeys(qs: seq<Question>, r1: Replies, r2: Replies)
    requires forall q :: Asked(q, r1) == Asked(q, r2)
    ensures Keys(AskedAnswers(qs, r1)) == Keys(AskedAnswers(qs, r2))
  {
    if qs != [] {
      var n := |qs| - 1;
      AskedAnswersKeys(qs[..n], r1, r2);
      var q := qs[n];
      var l1: Dict<Value> := if Asked(q, r1) then [(Key(q), Reply(r1, q))] else [];
      var l2: Dict<Value> := if Asked(q, r2) then [(Key(q), Reply(r2, q))] else [];
      KeysAppend(AskedAnswers(qs[..n], r1), l1);
      KeysAppend(AskedAnswers(qs[..n], r2), l2);
    }
  }

  /** The keys of the answers, and so the questions asked, depend on the
      storage and domain replies only. */
  lemma KeysDependOnTwoReplies(r1: Replies, r2: Replies)
    requires r1.storage == r2.storage && r1.domainConfirm == r2.domainConfirm
    ensures Keys(Collect(Questions, r1)) == Keys(Collect(Questions, r2))
  {
    CollectIsAskedAnswers(r1);
    CollectIsAskedAnswers(r2);
    AskedAnswersKeys(Questions, r1, r2);
  }

  // ---------------------------------------------------------------------
  // The summary table (lines 169-176)

  /** How a table cell shows an answer. */
  function Show(v: Option<Value>): string
  {
    match v
    case None => "undefined"
    case Some(Text(s)) => s
    case Some(Flag(b)) => if b then "true" else "false"
  }

  function OnOff(v: Option<Value>): string
  {
    if Truthy(v) then "Enabled" else "Disabled"
  }

  /** The rows pushed into the table, in order. The upload row tests the
      storage answer, not the upload answer. */
  function Summary(a: Dict<Value>): seq<(string, string)>
  {
    Rows(Get(a, Key(StorageQ)), Get(a, Key(DomainConfirmQ)), Get(a, Key(DomainQ)), Get(a, Key(EmailQ)),
         Get(a, Key(ApiKeyQ)), Get(a, Key(ZoneQ)), Get(a, Key(AutheliaQ)), Get(a, Key(DashboardQ)))
  }

  /** The table of one run as the replies determine it. */
  function RunTable(r: Replies): seq<(string, string)>
  {
    [("Storage", StorageName(r.storage)), ("Upload Amount", "750GB+")]
    + (if r.storage == Cloud && r.domainConfirm then
        [("Domain", r.domain), ("CloudFlare Email", r.email),
         ("CloudFlare Global API Key", r.apiKey), ("CloudFlare Zone ID", r.zoneId)]
       else [])
    + [("SSO", if r.authelia then "Enabled" else "Disabled"),
       ("Sudobox Dashboard", if r.dashboard then "Enabled" else "Disabled")]
  }

  /** The summary rows from the eight answers they show. */
  function Rows(storage: Option<Value>, domainConfirm: Option<Value>, domain: Option<Value>, email: Option<Value>,
                apiKey: Option<Value>, zoneId: Option<Value>, authelia: Option<Value>, dashboard: Option<Value>): seq<(string, string)>
  {
    [("Storage", Show(storage)), ("Upload Amount", if Truthy(storage) then "750GB+" else "Less than 750GB")]
    + (if Truthy(domainConfirm) then
        [("Domain", Show(domain)), ("CloudFlare Email", Show(email)),
         ("CloudFlare Global API Key", Show(apiKey)), ("CloudFlare Zone ID", Show(zoneId))]
       else [])
    + [("SSO", OnOff(authelia)), ("Sudobox Dashboard", OnOff(dashboard))]
  }

  /** The rows, for answers that hold the replies of the asked questions
      and nothing for the skipped ones. */
  lemma RowsOfReplies(r: Replies, storage: Option<Value>, domainConfirm: Option<Value>, domain: Option<Value>, email: Option<Value>,
                      apiKey: Option<Value>, zoneId: Option<Value>, authelia: Option<Value>, dashboard: Option<Value>)
    requires storage == if Asked(StorageQ, r) then Some(Reply(r, StorageQ)) else None
    requires domainConfirm == if Asked(DomainConfirmQ, r) then Some(Reply(r, DomainConfirmQ)) else None
    requires domain == if Asked(DomainQ, r) then Some(Reply(r, DomainQ)) else None
    requires email == if Asked(EmailQ, r) then Some(Reply(r, EmailQ)) else None
    requires apiKey == if Asked(ApiKeyQ, r) then Some(Reply(r, ApiKeyQ)) else None
    requires zoneId == if Asked(ZoneQ, r) then Some(Reply(r, ZoneQ)) else None
    requires authelia == if Asked(AutheliaQ, r) then Some(Reply(r, AutheliaQ)) else None
    requires dashboard == if Asked(DashboardQ, r) then Some(Reply(r, DashboardQ)) else None
    ensures Rows(storage, domainConfirm, domain, email, apiKey, zoneId, authelia, dashboard) == RunTable(r)
  {
    assert Truthy(storage);
    assert Truthy(domainConfirm) <==> r.storage == Cloud && r.domainConfirm;
  }

  /** A table built from answers that read as the replies say. */
  lemma SummaryOfAnswers(a: Dict<Value>, r: Replies)
    requires Get(a, Key(StorageQ)) == if Asked(StorageQ, r) then Some(Reply(r, StorageQ)) else None
    requires Get(a, Key(DomainConfirmQ)) == if Asked(DomainConfirmQ, r) then Some(Reply(r, DomainConfirmQ)) else None
    requires Get(a, Key(DomainQ)) == if Asked(DomainQ, r) then Some(Reply(r, DomainQ)) else None
    requires Get(a, Key(EmailQ)) == if Asked(EmailQ, r) then Some(Reply(r, EmailQ)) else None
    requires Get(a, Key(ApiKeyQ)) == if Asked(ApiKeyQ, r) then Some(Reply(r, ApiKeyQ)) else None
    requires Get(a, Key(ZoneQ)) == if Asked(ZoneQ, r) then Some(Reply(r, ZoneQ)) else None
    requires Get(a, Key(AutheliaQ)) == if Asked(AutheliaQ, r) then Some(Reply(r, AutheliaQ)) else None
    requires Get(a, Key(DashboardQ)) == if Asked(DashboardQ, r) then Some(Reply(r, DashboardQ)) else None
    ensures Summary(a) == RunTable(r)
  {
    RowsOfReplies(r, Get(a, Key(StorageQ)), Get(a, Key(DomainConfirmQ)), Get(a, Key(DomainQ)), Get(a, Key(EmailQ)),
                  Get(a, Key(ApiKeyQ)), Get(a, Key(ZoneQ)), Get(a, Key(AutheliaQ)), Get(a, Key(DashboardQ)));
  }

  /** The table of one run: the storage, "750GB+" whatever was answered
      about the upload amount, the four domain rows with the given values
      only when a domain was wanted, then SSO and the dashboard. */
  lemma SummaryOfRun(r: Replies)
    ensures Summary(Collect(Questions, r)) == RunTable(r)
  {
    var a := Collect(Questions, r);
    AskedQuestions(r, StorageQ);
    AskedQuestions(r, DomainConfirmQ);
    AskedQuestions(r, DomainQ);
    AskedQuestions(r, EmailQ);
    AskedQuestions(r, ApiKeyQ);
    AskedQuestions(r, ZoneQ);
    AskedQuestions(r, AutheliaQ);
    AskedQuestions(r, DashboardQ);
    SummaryOfAnswers(a, r);
  }

  /** The upload row does not depend on the upload answer. */
  lemma UploadRowIgnoresAnswer(r: Replies, more: bool)
    ensures Summary(Collect(Questions, r)) == Summary(Collect(Questions, r.(uploadAmount := more)))
    ensures Summary(Collect(Questions, r))[1] == ("Upload Amount", "750GB+")
  {
    SummaryOfRun(r);
    SummaryOfRun(r.(uploadAmount := more));
  }

  // ---------------------------------------------------------------------
  // Confirmation, stripping and saving (lines 181-205)

  /** The two keys deleted before saving. */
  function Strip(a: Dict<Value>): (r: Dict<Value>)
    ensures "uploadAmount" !in Keys(r) && "domainConfirm" !in Keys(r)
    ensures forall k :: k != "uploadAmount" && k != "domainConfirm" ==> Get(r, k) == Get(a, k)
  {
    Delete(Delete(a, "uploadAmount"), "domainConfirm")
  }

  /** What is saved for one run: every asked question except the upload
      amount and the domain question, with its reply. */
  lemma StrippedRun(r: Replies, q: Question)
    ensures Get(Strip(Collect(Questions, r)), Key(q)) ==
      if q != UploadAmountQ && q != DomainConfirmQ && Asked(q, r) then Some(Reply(r, q)) else None
  {
    AskedQuestions(r, q);
  }

  /** The reference for what is saved: the reply of every asked question
      other than the upload amount and the domain question, in question
      order, under the question's name. */
  function SavedAnswers(qs: seq<Question>, r: Replies): Dict<Value>
  {
    if qs == [] then []
    else
      var n := |qs| - 1;
      var q := qs[n];
      SavedAnswers(qs[..n], r) +
        (if Asked(q, r) && q != UploadAmountQ && q != DomainConfirmQ then [(Key(q), Reply(r, q))] else [])
  }

  /** Stripping works entry by entry: it keeps the order of what it keeps. */
  lemma StripAppend(a: Dict<Value>, b: Dict<Value>)
    ensures Strip(a + b) == Strip(a) + Strip(b)
  {
    DeleteAppend(a, b, "uploadAmount");
    DeleteAppend(Delete(a, "uploadAmount"), Delete(b, "uploadAmount"), "domainConfirm");
  }

  lemma StripLast(q: Question, r: Replies)
    ensures Strip(if Asked(q, r) then [(Key(q), Reply(r, q))] else []) ==
      if Asked(q, r) && q != UploadAmountQ && q != DomainConfirmQ then [(Key(q), Reply(r, q))] else []
  {
  }

  lemma {:induction false} StripAskedAnswers(qs: seq<Question>, r: Replies)
    ensures Strip(AskedAnswers(qs, r)) == SavedAnswers(qs, r)
  {
    if qs != [] {
      var n := |qs| - 1;
      var q := qs[n];
      var last: Dict<Value> := if Asked(q, r) then [(Key(q), Reply(r, q))] else [];
      StripAskedAnswers(qs[..n], r);
      StripAppend(AskedAnswers(qs[..n], r), last);
      StripLast(q, r);
    }
  }

  /** The saved answers are the asked ones without the upload amount and
      the domain question, in the order the questions were asked. */
  lemma StrippedRunInOrder(r: Replies)
    ensures Strip(Collect(Questions, r)) == SavedAnswers(Questions, r)
    ensures Keys(Strip(Collect(Questions, r))) ==
      if r.storage == Cloud && r.domainConfirm
      then ["storage", "domain", "cloudflare_email", "cloudflare_global_api", "cloudflare_zone_id", "authelia", "sb_dashboard"]
      else ["storage", "authelia", "sb_dashboard"]
  {
    CollectIsAskedAnswers(r);
    StripAskedAnswers(Questions, r);
    SavedKeys(r);
  }

  lemma SavedKeys(r: Replies)
    ensures Keys(SavedAnswers(Questions, r)) ==
      if r.storage == Cloud && r.domainConfirm
      then ["storage", "domain", "cloudflare_email", "cloudflare_global_api", "cloudflare_zone_id", "authelia", "sb_dashboard"]
      else ["storage", "authelia", "sb_dashboard"]
  {
    var a, b, c := [StorageQ, UploadAmountQ, DomainConfirmQ], [DomainQ, EmailQ, ApiKeyQ, ZoneQ], [AutheliaQ, DashboardQ];
    SavedKeysOfBlocks(Questions, a, b, c, r);
    SavedHead(r);
    SavedCloudflare(r);
    SavedTail(r);
    KeyBlocks(Keys(SavedAnswers(a, r)), Keys(SavedAnswers(b, r)), Keys(SavedAnswers(c, r)), r.storage == Cloud && r.domainConfirm);
  }

  /** The three blocks of saved keys put together. */
  lemma KeyBlocks(ka: seq<string>, kb: seq<string>, kc: seq<string>, cloudflare: bool)
    requires ka == ["storage"] && kc == ["authelia", "sb_dashboard"]
    requires kb == if cloudflare then ["domain", "cloudflare_email", "cloudflare_global_api", "cloudflare_zone_id"] else []
    ensures (ka + kb) + kc ==
      if cloudflare
      then ["storage", "domain", "cloudflare_email", "cloudflare_global_api", "cloudflare_zone_id", "authelia", "sb_dashboard"]
      else ["storage", "authelia", "sb_dashboard"]
  {
  }

  lemma SavedKeysOfBlocks(qs: seq<Question>, a: seq<Question>, b: seq<Question>, c: seq<Question>, r: Replies)
    requires qs == (a + b) + c
    ensures Keys(SavedAnswers(qs, r)) == (Keys(SavedAnswers(a, r)) + Keys(SavedAnswers(b, r))) + Keys(SavedAnswers(c, r))
  {
    var sa, sb, sc := SavedAnswers(a, r), SavedAnswers(b, r), SavedAnswers(c, r);
    SavedAnswersAppend(a + b, c, r);
    SavedAnswersAppend(a, b, r);
    KeysAppend(sa, sb);
    KeysAppend(sa + sb, sc);
  }

  lemma SavedHead(r: Replies)
    ensures Keys(SavedAnswers([StorageQ, UploadAmountQ, DomainConfirmQ], r)) == ["storage"]
  {
    var qs := [StorageQ, UploadAmountQ, DomainConfirmQ];
    var e := [("storage", Reply(r, StorageQ))];
    assert qs[..2] == [StorageQ, UploadAmountQ] && qs[..2][..1] == [StorageQ] && [StorageQ][..0] == [];
    assert SavedAnswers([StorageQ], r) == e;
    assert SavedAnswers([StorageQ, UploadAmountQ], r) == e;
    assert SavedAnswers(qs, r) == e;
  }

  lemma SavedCloudflare(r: Replies)
    ensures Keys(SavedAnswers([DomainQ, EmailQ, ApiKeyQ, ZoneQ], r)) ==
      if r.storage == Cloud && r.domainConfirm
      then ["domain", "cloudflare_email", "cloudflare_global_api", "cloudflare_zone_id"] else []
  {
    var qs := [DomainQ, EmailQ, ApiKeyQ, ZoneQ];
    assert qs[..3] == [DomainQ, EmailQ, ApiKeyQ] && qs[..3][..2] == [DomainQ, EmailQ];
    assert qs[..2] == [DomainQ, EmailQ] && qs[..2][..1] == [DomainQ] && [DomainQ][..0] == [];
    if r.storage == Cloud && r.domainConfirm {
      var e1 := [("domain", Reply(r, DomainQ))];
      var e2 := e1 + [("cloudflare_email", Reply(r, EmailQ))];
      var e3 := e2 + [("cloudflare_global_api", Reply(r, ApiKeyQ))];
      assert SavedAnswers([DomainQ], r) == e1;
      assert SavedAnswers(qs[..2], r) == e2;
      assert SavedAnswers(qs[..3], r) == e3;
      assert SavedAnswers(qs, r) == e3 + [("cloudflare_zone_id", Reply(r, ZoneQ))];
    } else {
      assert SavedAnswers([DomainQ], r) == [];
      assert SavedAnswers(qs[..2], r) == [];
      assert SavedAnswers(qs[..3], r) == [];
      assert SavedAnswers(qs, r) == [];
    }
  }

  lemma SavedTail(r: Replies)
    ensures Keys(SavedAnswers([AutheliaQ, DashboardQ], r)) == ["authelia", "sb_dashboard"]
  {
    var qs := [AutheliaQ, DashboardQ];
    assert qs[..1] == [AutheliaQ] && [AutheliaQ][..0] == [];
    assert SavedAnswers([AutheliaQ], r) == [("authelia", Reply(r, AutheliaQ))];
    assert SavedAnswers(qs, r) == [("authelia", Reply(r, AutheliaQ)), ("sb_dashboard", Reply(r, DashboardQ))];
  }

  lemma {:induction false} SavedAnswersAppend(a: seq<Question>, b: seq<Question>, r: Replies)
    ensures SavedAnswers(a + b, r) == SavedAnswers(a, r) + SavedAnswers(b, r)
  {
    if b == [] {
      assert a + b == a;
    } else {
      var n := |b| - 1;
      assert (a + b)[..|a + b| - 1] == a + b[..n] && (a + b)[|a + b| - 1] == b[n];
      SavedAnswersAppend(a, b[..n], r);
    }
  }

  /** One run of the questions and the operator's answer to "Is the
      information above correct". */
  datatype Round = Round(replies: Replies, confirmed: bool)

  /** A declined round calls `initQuestions` again from the start; the
      replies of the first confirmed round are the ones kept, or None when
      the operator never confirms. */
  function Settle(rounds: seq<Round>): (r: Option<Replies>)
    ensures r.Some? <==> exists i :: 0 <= i < |rounds| && rounds[i].confirmed
  {
    if rounds == [] then None
    else if rounds[0].confirmed then Some(rounds[0].replies)
    else
      var rest := Settle(rounds[1..]);
      assert forall i :: 1 <= i < |rounds| ==> rounds[i] == rounds[1..][i - 1];
      rest
  }

  /** The entries handed to the save loop, or none at all. */
  function ToSave(rounds: seq<Round>): Dict<Value>
  {
    match Settle(rounds)
    case None => []
    case Some(r) => Strip(Collect(Questions, r))
  }

  /** Declined rounds leave no trace: what is saved is decided by the
      rounds after them alone. */
  lemma {:induction false} DeclinedRoundsSaveNothing(declined: seq<Round>, rest: seq<Round>)
    requires forall i :: 0 <= i < |declined| ==> !declined[i].confirmed
    ensures Settle(declined + rest) == Settle(rest)
    ensures ToSave(declined + rest) == ToSave(rest)
  {
    if declined != [] {
      assert (declined + rest)[1..] == declined[1..] + rest;
      DeclinedRoundsSaveNothing(declined[1..], rest);
    } else {
      assert declined + rest == rest;
    }
  }

  /** The entries the store ends up with: one `save` per entry, each one
      that fails caught and logged. */
  function Stored(entries: Dict<Value>, saves: seq<bool>): Dict<Value>
    requires |saves| == |entries|
  {
    if entries == [] then []
    else
      var n := |entries| - 1;
      Stored(entries[..n], saves[..n]) + (if saves[n] then [entries[n]] else [])
  }

  /** An entry whose own save succeeds is stored, whatever the saves of the
      others do. */
  lemma {:induction false} StoredKeepsSaved(entries: Dict<Value>, saves: seq<bool>)
    requires |saves| == |entries|
    ensures forall i :: 0 <= i < |entries| && saves[i] ==> entries[i] in Stored(entries, saves)
  {
    if entries != [] {
      var n := |entries| - 1;
      StoredKeepsSaved(entries[..n], saves[..n]);
      forall i | 0 <= i < n && saves[i] ensures entries[i] in Stored(entries, saves) {
        assert entries[..n][i] == entries[i] && saves[..n][i] == saves[i];
      }
    }
  }

  /** Only entries whose save succeeds are stored, and never more entries
      than there were answers. */
  lemma {:induction false} StoredOnlySaved(entries: Dict<Value>, saves: seq<bool>)
    requires |saves| == |entries|
    ensures forall e :: e in Stored(entries, saves) ==> exists i :: 0 <= i < |entries| && saves[i] && entries[i] == e
    ensures |Stored(entries, saves)| <= |entries|
  {
    if entries != [] {
      var n := |entries| - 1;
      StoredOnlySaved(entries[..n], saves[..n]);
      forall e | e in Stored(entries, saves) ensures exists i :: 0 <= i < |entries| && saves[i] && entries[i] == e {
        if e in Stored(entries[..n], saves[..n]) {
          var i :| 0 <= i < n && saves[..n][i] && entries[..n][i] == e;
          assert saves[i] && entries[i] == e;
        } else {
          assert saves[n] && entries[n] == e;
        }
      }
    }
  }

  /** When every save succeeds the store receives every entry, in answer
      order. */
  lemma {:induction false} StoredAllSaved(entries: Dict<Value>, saves: seq<bool>)
    requires |saves| == |entries| && forall i :: 0 <= i < |saves| ==> saves[i]
    ensures Stored(entries, saves) == entries
  {
    if entries != [] {
      var n := |entries| - 1;
      assert forall i :: 0 <= i < n ==> saves[..n][i];
      StoredAllSaved(entries[..n], saves[..n]);
      assert entries[..n] + [entries[n]] == entries;
    }
  }

  /** The save loop of lines 194-205: `written` is every key it tries, in
      order; `saves` tells which saves succeed. */
  method SaveAll(entries: Dict<Value>, saves: seq<bool>) returns (written: seq<string>, stored: Dict<Value>)
    requires |saves| == |entries|
    ensures written == Keys(entries)
    ensures stored == Stored(entries, saves)
  {
    written, stored := [], [];
    for i := 0 to |entries|
      invariant written == Keys(entries[..i])
      invariant stored == Stored(entries[..i], saves[..i])
    {
      SaveStep(entries, saves, i);
      written := written + [entries[i].0];
      if saves[i] {
        stored := stored + [entries[i]];
      }
    }
    assert entries[..|entries|] == entries && saves[..|saves|] == saves;
  }

  /** One more pass of the save loop. */
  lemma SaveStep(entries: Dict<Value>, saves: seq<bool>, i: nat)
    requires |saves| == |entries| && i < |entries|
    ensures Keys(entries[..i + 1]) == Keys(entries[..i]) + [entries[i].0]
    ensures Stored(entries[..i + 1], saves[..i + 1]) == Stored(entries[..i], saves[..i]) + if saves[i] then [entries[i]] else []
  {
    assert entries[..i + 1][..i] == entries[..i] && saves[..i + 1][..i] == saves[..i];
    assert entries[..i + 1][i] == entries[i] && saves[..i + 1][i] == saves[i];
    KeysPrefix(entries, i);
  }

  // ---------------------------------------------------------------------
  // The setup install loop (lines 315-388 and 411-437)

  /** `autheliaAnswers` is prompted for only when SSO was wanted, and
      `traefikAnswers` only for Cloud storage. */
  predicate HasAutheliaAnswers(saved: Dict<Value>) { Truthy(Get(saved, "authelia")) }
  predicate HasTraefikAnswers(saved: Dict<Value>) { Get(saved, "storage") == Some(Text("Cloud")) }

  const SetupLabels := Batch.Labels("Installing...", "Successfully Installed", "Installation Failed")

  /** What the loop's `installApp` calls yield. The request body reads
      `traefikAnswers.cftoken` and `autheliaAnswers.*` inside the `try`, so
      when either is undefined every call rejects; otherwise `responses`
      gives, per app, the truthiness of the `error` field it resolves or a
      rejection. */
  function SetupCalls(saved: Dict<Value>, responses: seq<Batch.Call>): (calls: seq<Batch.Call>)
    ensures |calls| == |responses|
    ensures !HasAutheliaAnswers(saved) || !HasTraefikAnswers(saved) ==>
      forall i :: 0 <= i < |calls| ==> calls[i] == Batch.Rejected
    ensures HasAutheliaAnswers(saved) && HasTraefikAnswers(saved) ==> calls == responses
  {
    if HasAutheliaAnswers(saved) && HasTraefikAnswers(saved) then responses
    else seq(|responses|, i requires 0 <= i < |responses| => Batch.Rejected)
  }

  /** The install phase after the apps to install are listed: None when the
      operator declines (the process exits), else the batch over the apps
      in server order. */
  function SetupInstall(saved: Dict<Value>, apps: seq<string>, confirmInstall: bool, responses: seq<Batch.Call>): Option<Batch.Run>
    requires |responses| == |apps|
  {
    if !confirmInstall then None
    else Some(Batch.Batch(apps, SetupCalls(saved, responses), SetupLabels))
  }

  /** The saved answers prompt for the Authelia answers exactly when SSO
      was wanted, and for the Traefik answers exactly for Cloud storage. */
  lemma SavedPrompts(r: Replies)
    ensures HasAutheliaAnswers(Strip(Collect(Questions, r))) <==> r.authelia
    ensures HasTraefikAnswers(Strip(Collect(Questions, r))) <==> r.storage == Cloud
  {
    StrippedRun(r, AutheliaQ);
    StrippedRun(r, StorageQ);
  }

  /** Without SSO, or without Cloud storage, the first app is marked
      "Installing..." and its call throws out of the wizard: no app is
      installed. */
  lemma SetupNeedsSsoAndCloud(r: Replies, apps: seq<string>, responses: seq<Batch.Call>)
    requires |responses| == |apps| && |apps| > 0
    requires !r.authelia || r.storage != Cloud
    ensures SetupInstall(Strip(Collect(Questions, r)), apps, true, responses) ==
      Some(Batch.Run([(apps[0], "Installing...")], true))
  {
    SavedPrompts(r);
    SetupWithoutPrompts(Strip(Collect(Questions, r)), apps, responses);
  }

  lemma SetupWithoutPrompts(saved: Dict<Value>, apps: seq<string>, responses: seq<Batch.Call>)
    requires |responses| == |apps| && |apps| > 0
    requires !HasAutheliaAnswers(saved) || !HasTraefikAnswers(saved)
    ensures SetupInstall(saved, apps, true, responses) == Some(Batch.Run([(apps[0], "Installing...")], true))
  {
    Batch.BatchStopsAtRejection(apps, SetupCalls(saved, responses), SetupLabels, 0);
    assert apps[..0] == [];
  }

  /** With SSO and Cloud storage and no rejected call, the final
      `appsInstalling` holds each listed app name once, in server order,
      and the number of its entries reading "Successfully Installed" is the
      number of names whose last call resolved a truthy `error`; with
      distinct names, it holds every listed app and that number is the
      number of truthy calls. */
  lemma SetupTally(r: Replies, apps: seq<string>, responses: seq<Batch.Call>)
    requires |responses| == |apps|
    requires r.authelia && r.storage == Cloud
    requires forall i :: 0 <= i < |responses| ==> responses[i].Resolved?
    ensures var run := SetupInstall(Strip(Collect(Questions, r)), apps, true, responses).value;
      !run.aborted && Keys(run.statuses) == Dedup(apps)
      && Batch.Tally(run.statuses, SetupLabels) == (|set k | k in apps|, |Batch.LastTruthyNames(apps, responses)|)
    ensures var run := SetupInstall(Strip(Collect(Questions, r)), apps, true, responses).value;
      Distinct(apps) ==>
        Keys(run.statuses) == apps && Batch.Tally(run.statuses, SetupLabels) == (|apps|, Batch.TruthyCount(responses))
  {
    SavedPrompts(r);
    SetupWithPrompts(Strip(Collect(Questions, r)), apps, responses);
  }

  lemma SetupWithPrompts(saved: Dict<Value>, apps: seq<string>, responses: seq<Batch.Call>)
    requires |responses| == |apps|
    requires HasAutheliaAnswers(saved) && HasTraefikAnswers(saved)
    requires forall i :: 0 <= i < |responses| ==> responses[i].Resolved?
    ensures var run := SetupInstall(saved, apps, true, responses).value;
      !run.aborted && Keys(run.statuses) == Dedup(apps)
      && Batch.Tally(run.statuses, SetupLabels) == (|set k | k in apps|, |Batch.LastTruthyNames(apps, responses)|)
    ensures var run := SetupInstall(saved, apps, true, responses).value;
      Distinct(apps) ==>
        Keys(run.statuses) == apps && Batch.Tally(run.statuses, SetupLabels) == (|apps|, Batch.TruthyCount(responses))
  {
    assert SetupCalls(saved, responses) == responses;
    Batch.BatchLastWrite(apps, responses, SetupLabels);
    Batch.BatchTally(apps, responses, SetupLabels);
    if Distinct(apps) {
      Batch.BatchSettlesEveryItem(apps, responses, SetupLabels);
    }
  }
}
