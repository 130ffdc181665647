/** The reimplementation ledger (tools/_reimpl.py): which functions are done or planned, and the
    domain-scoped view that must not depend on the excluded domain's own progress. */
module Reimpl {
  import opened Options
  import opened Sequences

  const DONE_STATE := "verified"
  const DEAD_STATE := "dead"

  datatype Status = Done | Planned

  datatype Row = Row(addr: int, state: string, promoted: bool)

  /** A migration profile: it may fail to load, and its manifest may be absent. */
  datatype Profile = Broken | Profile(recordsState: bool, manifest: Option<seq<Row>>)

  /** The repository as the ledger sees it: the profiles in listing order, the address of each
      function name, and the names installed through a macro. */
  datatype Repo = Repo(available: seq<string>, profiles: map<string, Profile>,
                       byName: map<string, int>, installed: set<string>)

  function ProfileOf(repo: Repo, domain: string): Profile {
    if domain in repo.profiles then repo.profiles[domain] else Broken
  }

  function ManifestRows(p: Profile): seq<Row> {
    if p.Profile? && p.manifest.Some? then p.manifest.value else []
  }

  // ---- the ledger rows ----------------------------------------------------------------------

  datatype LedgerRow = LedgerRow(addr: int, status: Status, domain: string, promoted: bool)

  function Live(rows: seq<Row>, domain: string): seq<LedgerRow> {
    if rows == [] then []
    else
      var last := rows[|rows| - 1];
      Live(rows[..|rows| - 1], domain)
      + if last.state == DEAD_STATE then []
        else [LedgerRow(last.addr, if last.state == DONE_STATE then Done else Planned, domain, last.promoted)]
  }

  /** The rows of one domain that count: none unless it records state. */
  function DomainRows(repo: Repo, domain: string): seq<LedgerRow> {
    var p := ProfileOf(repo, domain);
    if p.Profile? && p.recordsState then Live(ManifestRows(p), domain) else []
  }

  function LedgerRows(repo: Repo, domains: seq<string>): seq<LedgerRow> {
    if domains == [] then []
    else LedgerRows(repo, domains[..|domains| - 1]) + DomainRows(repo, domains[|domains| - 1])
  }

  method LiveRows(rows: seq<Row>, domain: string) returns (out: seq<LedgerRow>)
    ensures out == Live(rows, domain)
  {
    out := [];
    for i := 0 to |rows|
      invariant out == Live(rows[..i], domain)
    {
      PrefixSnoc(rows, i);
      if rows[i].state == DEAD_STATE { continue; }
      out := out + [LedgerRow(rows[i].addr, if rows[i].state == DONE_STATE then Done else Planned,
                              domain, rows[i].promoted)];
    }
    assert rows[..|rows|] == rows;
  }

  method LoadLedgerRows(repo: Repo) returns (out: seq<LedgerRow>)
    ensures out == LedgerRows(repo, repo.available)
  {
    out := [];
    for k := 0 to |repo.available|
      invariant out == LedgerRows(repo, repo.available[..k])
    {
      var domain := repo.available[k];
      PrefixSnoc(repo.available, k);
      var p := ProfileOf(repo, domain);
      if p == Broken || !p.recordsState || p.manifest.None? {
        assert DomainRows(repo, domain) == [];
        continue;
      }
      var live := LiveRows(p.manifest.value, domain);
      out := out + live;
    }
    assert repo.available[..|repo.available|] == repo.available;
  }

  /** Every address a domain claims, whatever its state; none if its profile does not load. */
  function LoadDomainAddrs(repo: Repo, domain: Option<string>): set<int> {
    if domain.None? || domain.value == "" then {}
    else set r | r in ManifestRows(ProfileOf(repo, domain.value)) :: r.addr
  }

  // ---- load_reimpl --------------------------------------------------------------------------

  /** The last row of another domain with this address. */
  function LastOther(rows: seq<LedgerRow>, exclude: Option<string>, a: int): Option<Status> {
    if rows == [] then None
    else
      var last := rows[|rows| - 1];
      if last.addr == a && exclude != Some(last.domain) then Some(last.status)
      else LastOther(rows[..|rows| - 1], exclude, a)
  }

  /** What the ledger view says of an address: the other domains' ledger first, then a macro site
      that is not the excluded domain's. */
  function View(repo: Repo, exclude: Option<string>, a: int): Option<Status> {
    var graded := LastOther(LedgerRows(repo, repo.available), exclude, a);
    if graded.Some? then graded
    else if SiteAmong(repo.byName, repo.installed, a) && a !in LoadDomainAddrs(repo, exclude) then Some(Done)
    else None
  }

  function Lookup(m: map<int, Status>, a: int): Option<Status> {
    if a in m then Some(m[a]) else None
  }

  method Grade(rows: seq<LedgerRow>, exclude: Option<string>) returns (status: map<int, Status>)
    ensures forall a :: Lookup(status, a) == LastOther(rows, exclude, a)
  {
    status := map[];
    for i := 0 to |rows|
      invariant forall a :: Lookup(status, a) == LastOther(rows[..i], exclude, a)
    {
      assert rows[..i + 1][..i] == rows[..i] && rows[..i + 1][i] == rows[i];
      if exclude == Some(rows[i].domain) { continue; }
      status := status[rows[i].addr := rows[i].status];
    }
    assert rows[..|rows|] == rows;
  }

  predicate SiteAmong(byName: map<string, int>, names: set<string>, a: int) {
    exists n :: n in names && n in byName && byName[n] == a
  }

  /** The scan so far, over the names already looked at, on top of the graded rows. */
  predicate Scanned(byName: map<string, int>, own: set<int>, graded: map<int, Status>, names: set<string>,
                    a: int, answer: Option<Status>) {
    answer == if a in graded then Some(graded[a])
              else if a !in own && SiteAmong(byName, names, a) then Some(Done) else None
  }

  method Scan(byName: map<string, int>, installed: set<string>, own: set<int>, graded: map<int, Status>)
    returns (status: map<int, Status>)
    ensures forall a :: Scanned(byName, own, graded, installed, a, Lookup(status, a))
  {
    status := graded;
    var rest, looked := installed, {};
    while rest != {}
      invariant rest + looked == installed
      invariant forall a :: Scanned(byName, own, graded, looked, a, Lookup(status, a))
    {
      var nm :| nm in rest;
      ghost var before := status;
      if nm in byName && byName[nm] !in status && byName[nm] !in own {
        status := status[byName[nm] := Done];
      }
      forall a
        ensures Scanned(byName, own, graded, looked + {nm}, a, Lookup(status, a))
      {
        assert Scanned(byName, own, graded, looked, a, Lookup(before, a));
        OneMoreSite(byName, looked, nm, a);
      }
      rest, looked := rest - {nm}, looked + {nm};
    }
    assert looked == installed;
  }

  lemma OneMoreSite(byName: map<string, int>, names: set<string>, n: string, a: int)
    ensures SiteAmong(byName, names + {n}, a) <==> SiteAmong(byName, names, a) || (n in byName && byName[n] == a)
  {
    if m :| m in names && m in byName && byName[m] == a { assert m in names + {n}; }
    if n in byName && byName[n] == a { assert n in names + {n}; }
  }

  method LoadReimpl(repo: Repo, exclude: Option<string>) returns (status: map<int, Status>)
    ensures forall a :: Lookup(status, a) == View(repo, exclude, a)
  {
    var own := LoadDomainAddrs(repo, exclude);
    var rows := LoadLedgerRows(repo);
    var graded := Grade(rows, exclude);
    status := Scan(repo.byName, repo.installed, own, graded);
    forall a
      ensures Lookup(status, a) == View(repo, exclude, a)
    {
      assert Lookup(graded, a) == LastOther(rows, exclude, a);
      assert Scanned(repo.byName, own, graded, repo.installed, a, Lookup(status, a));
    }
  }

  // ---- the excluded domain cannot be seen ---------------------------------------------------

  lemma {:induction false} LiveAddrs(rows: seq<Row>, domain: string)
    ensures forall r | r in Live(rows, domain) :: r.domain == domain && exists q :: q in rows && q.addr == r.addr
  {
    if rows != [] {
      var init, last := rows[..|rows| - 1], rows[|rows| - 1];
      LiveAddrs(init, domain);
      assert rows == init + [last] && last in rows;
      forall r | r in Live(rows, domain)
        ensures r.domain == domain && exists q :: q in rows && q.addr == r.addr
      {
        if r in Live(init, domain) {
          var q :| q in init && q.addr == r.addr;
          assert q in rows;
        }
      }
    }
  }

  lemma {:induction false} LastOtherAppend(a: seq<LedgerRow>, b: seq<LedgerRow>, exclude: Option<string>, x: int)
    ensures LastOther(a + b, exclude, x) ==
            if LastOther(b, exclude, x).Some? then LastOther(b, exclude, x) else LastOther(a, exclude, x)
  {
    if b == [] {
      assert a + b == a;
    } else {
      LastOtherAppend(a, b[..|b| - 1], exclude, x);
      assert (a + b)[..|a + b| - 1] == a + b[..|b| - 1];
    }
  }

  lemma {:induction false} OwnRowsSkipped(rows: seq<LedgerRow>, domain: string, x: int)
    requires forall r | r in rows :: r.domain == domain
    ensures LastOther(rows, Some(domain), x) == None
  {
    if rows != [] {
      assert rows[|rows| - 1] in rows;
      OwnRowsSkipped(rows[..|rows| - 1], domain, x);
    }
  }

  /** Two repositories that differ only in the progress of domain `d`: in the state and promotion of
      its rows (not in the addresses it claims), and in which of its addresses have a macro site. */
  ghost predicate SameButProgress(r: Repo, s: Repo, d: string) {
    && d != ""
    && r.available == s.available && r.byName == s.byName
    && (forall e | e != d :: ProfileOf(r, e) == ProfileOf(s, e))
    && ProfileOf(r, d).Profile? && ProfileOf(s, d).Profile?
    && LoadDomainAddrs(r, Some(d)) == LoadDomainAddrs(s, Some(d))
    && (forall n | n in r.byName && (n in r.installed <==> n !in s.installed) ::
          r.byName[n] in LoadDomainAddrs(r, Some(d)))
  }

  lemma {:induction false} SameOtherRows(r: Repo, s: Repo, d: string, domains: seq<string>, a: int)
    requires SameButProgress(r, s, d)
    ensures LastOther(LedgerRows(r, domains), Some(d), a) == LastOther(LedgerRows(s, domains), Some(d), a)
  {
    if domains != [] {
      var init, e := domains[..|domains| - 1], domains[|domains| - 1];
      SameOtherRows(r, s, d, init, a);
      LastOtherAppend(LedgerRows(r, init), DomainRows(r, e), Some(d), a);
      LastOtherAppend(LedgerRows(s, init), DomainRows(s, e), Some(d), a);
      if e == d {
        LiveAddrs(ManifestRows(ProfileOf(r, d)), d);
        LiveAddrs(ManifestRows(ProfileOf(s, d)), d);
        OwnRowsSkipped(DomainRows(r, d), d, a);
        OwnRowsSkipped(DomainRows(s, d), d, a);
      }
    }
  }

  /** The view scoped to exclude a domain does not depend on how far that domain is. */
  lemma NonInterference(r: Repo, s: Repo, d: string, a: int)
    requires SameButProgress(r, s, d)
    ensures View(r, Some(d), a) == View(s, Some(d), a)
  {
    SameOtherRows(r, s, d, r.available, a);
    if a !in LoadDomainAddrs(r, Some(d)) {
      if n :| n in r.installed && n in r.byName && r.byName[n] == a { assert n in s.installed; }
      if n :| n in s.installed && n in s.byName && s.byName[n] == a { assert n in r.installed; }
    }
  }

  lemma {:induction false} OnlyOwnRowsDiffer(repo: Repo, d: string, domains: seq<string>, a: int)
    requires d != "" && a !in LoadDomainAddrs(repo, Some(d))
    ensures LastOther(LedgerRows(repo, domains), Some(d), a) == LastOther(LedgerRows(repo, domains), None, a)
  {
    if domains != [] {
      var init, e := domains[..|domains| - 1], domains[|domains| - 1];
      OnlyOwnRowsDiffer(repo, d, init, a);
      LastOtherAppend(LedgerRows(repo, init), DomainRows(repo, e), Some(d), a);
      LastOtherAppend(LedgerRows(repo, init), DomainRows(repo, e), None, a);
      LiveAddrs(ManifestRows(ProfileOf(repo, e)), e);
      SameLast(DomainRows(repo, e), d, a);
    }
  }

  lemma {:induction false} SameLast(rows: seq<LedgerRow>, d: string, a: int)
    requires forall r | r in rows && r.domain == d :: r.addr != a
    ensures LastOther(rows, Some(d), a) == LastOther(rows, None, a)
  {
    if rows != [] {
      assert rows[|rows| - 1] in rows;
      SameLast(rows[..|rows| - 1], d, a);
    }
  }

  /** Excluding a domain changes the answer on its own addresses only; and on those, only another
      domain's ledger can still speak. */
  lemma ExclusionIsLocal(repo: Repo, d: string, a: int)
    requires d != ""
    ensures a !in LoadDomainAddrs(repo, Some(d)) ==> View(repo, Some(d), a) == View(repo, None, a)
    ensures a in LoadDomainAddrs(repo, Some(d)) ==>
              View(repo, Some(d), a) == LastOther(LedgerRows(repo, repo.available), Some(d), a)
  {
    if a !in LoadDomainAddrs(repo, Some(d)) {
      OnlyOwnRowsDiffer(repo, d, repo.available, a);
    }
  }

  /** One more macro site changes the view exactly when its name resolves to an address that no
      other domain's ledger has graded, that has no site yet, and that the excluded domain does not
      claim: in particular a domain whose profile does not load claims nothing. */
  lemma MacroSiteMatters(repo: Repo, exclude: Option<string>, n: string)
    ensures var more := repo.(installed := repo.installed + {n});
            (exists a :: View(more, exclude, a) != View(repo, exclude, a)) <==>
              n in repo.byName && View(repo, exclude, repo.byName[n]) == None
              && repo.byName[n] !in LoadDomainAddrs(repo, exclude)
  {
    var more := repo.(installed := repo.installed + {n});
    SameLedger(repo, more, repo.available);
    forall a { OneMoreSite(repo.byName, repo.installed, n, a); }
    if n in repo.byName {
      var a := repo.byName[n];
      assert View(more, exclude, a).Some? || a in LoadDomainAddrs(repo, exclude);
    }
  }

  lemma {:induction false} SameLedger(r: Repo, s: Repo, domains: seq<string>)
    requires r.profiles == s.profiles
    ensures LedgerRows(r, domains) == LedgerRows(s, domains)
  {
    if domains != [] { SameLedger(r, s, domains[..|domains| - 1]); }
  }

  // ---- the answer, read off the manifests ---------------------------------------------------

  /** Row `j` of the manifest of the `k`-th domain counts for address `a`: the domain records state
      and is not excluded, and the row is not dead. */
  predicate Counts(repo: Repo, exclude: Option<string>, a: int, k: int, j: int) {
    && 0 <= k < |repo.available| && repo.available[k] in repo.profiles
    && var p := repo.profiles[repo.available[k]];
    && p.Profile? && p.recordsState && p.manifest.Some? && 0 <= j < |p.manifest.value|
    && p.manifest.value[j].addr == a && p.manifest.value[j].state != "dead"
    && exclude != Some(repo.available[k])
  }

  /** It is the last row to count, over the first `n` domains. */
  ghost predicate CountsLast(repo: Repo, exclude: Option<string>, a: int, n: nat, k: int, j: int) {
    && k < n && Counts(repo, exclude, a, k, j)
    && forall l, i | l < n && Counts(repo, exclude, a, l, i) :: l < k || (l == k && i <= j)
  }

  function StatusOf(state: string): Status {
    if state == "verified" then Done else Planned
  }

  /** The excluded domain claims the address, in whatever state. */
  predicate Claims(repo: Repo, exclude: Option<string>, a: int) {
    && exclude.Some? && exclude.value != "" && exclude.value in repo.profiles
    && var p := repo.profiles[exclude.value];
    && p.Profile? && p.manifest.Some?
    && exists j :: 0 <= j < |p.manifest.value| && p.manifest.value[j].addr == a
  }

  /** The answer of an address: done or planned by the last row that counts; if none does, done if a
      name with a macro site resolves to it and the excluded domain does not claim it. */
  lemma {:induction false} AnswerByRows(repo: Repo, exclude: Option<string>, a: int)
    ensures forall k, j | CountsLast(repo, exclude, a, |repo.available|, k, j) ::
              View(repo, exclude, a) == Some(StatusOf(repo.profiles[repo.available[k]].manifest.value[j].state))
    ensures (forall k, j :: !Counts(repo, exclude, a, k, j)) ==>
              View(repo, exclude, a)
              == if (exists n :: n in repo.installed && n in repo.byName && repo.byName[n] == a)
                    && !Claims(repo, exclude, a) then Some(Done) else None
  {
    ClaimsAreAddrs(repo, exclude, a);
    GradedByRows(repo, exclude, a, |repo.available|);
    assert repo.available[..|repo.available|] == repo.available;
  }

  lemma ClaimsAreAddrs(repo: Repo, exclude: Option<string>, a: int)
    ensures Claims(repo, exclude, a) <==> a in LoadDomainAddrs(repo, exclude)
  {
    if exclude.Some? && exclude.value != "" {
      var rows := ManifestRows(ProfileOf(repo, exclude.value));
      if j :| 0 <= j < |rows| && rows[j].addr == a { assert rows[j] in rows; }
      if r :| r in rows && r.addr == a {
        var j :| 0 <= j < |rows| && rows[j] == r;
      }
    }
  }

  /** The graded answer says what the last row to count says, or that there is none. */
  ghost predicate GradedRight(repo: Repo, exclude: Option<string>, a: int, n: nat, graded: Option<Status>) {
    match graded
    case None => forall k, j | k < n :: !Counts(repo, exclude, a, k, j)
    case Some(status) =>
      exists k, j :: CountsLast(repo, exclude, a, n, k, j)
                     && status == StatusOf(repo.profiles[repo.available[k]].manifest.value[j].state)
  }

  lemma {:induction false} GradedByRows(repo: Repo, exclude: Option<string>, a: int, n: nat)
    requires n <= |repo.available|
    ensures GradedRight(repo, exclude, a, n, LastOther(LedgerRows(repo, repo.available[..n]), exclude, a))
  {
    if n > 0 {
      var m := n - 1;
      var d := repo.available[m];
      GradedByRows(repo, exclude, a, m);
      assert repo.available[..n][..m] == repo.available[..m];
      LastOtherAppend(LedgerRows(repo, repo.available[..m]), DomainRows(repo, d), exclude, a);
      GradedInDomain(ManifestRows(ProfileOf(repo, d)), d, exclude, a);
      OneDomainMore(repo, exclude, a, m, LastOther(LedgerRows(repo, repo.available[..m]), exclude, a),
                    LastOther(DomainRows(repo, d), exclude, a));
    }
  }

  lemma {:induction false} OneDomainMore(repo: Repo, exclude: Option<string>, a: int, m: nat,
                                         before: Option<Status>, here: Option<Status>)
    requires m < |repo.available| && GradedRight(repo, exclude, a, m, before)
    requires var d := repo.available[m]; var p := ProfileOf(repo, d);
             if p.Profile? && p.recordsState then GradedInRight(ManifestRows(p), d, exclude, a, here) else here == None
    ensures GradedRight(repo, exclude, a, m + 1, if here.Some? then here else before)
  {
    var d := repo.available[m];
    var rows := ManifestRows(ProfileOf(repo, d));
    if here.Some? {
      var j :| LastIn(rows, d, exclude, a, j) && here.value == StatusOf(rows[j].state);
      forall i
        ensures Counts(repo, exclude, a, m, i) ==> i <= j
      {
        CountsHere(repo, exclude, a, m, i);
      }
      CountsHere(repo, exclude, a, m, j);
      assert CountsLast(repo, exclude, a, m + 1, m, j);
    } else {
      forall j
        ensures !Counts(repo, exclude, a, m, j)
      {
        CountsHere(repo, exclude, a, m, j);
      }
      if before.Some? {
        var k, j :| CountsLast(repo, exclude, a, m, k, j)
                    && before.value == StatusOf(repo.profiles[repo.available[k]].manifest.value[j].state);
        assert CountsLast(repo, exclude, a, m + 1, k, j);
      }
    }
  }

  lemma CountsHere(repo: Repo, exclude: Option<string>, a: int, m: nat, j: int)
    requires m < |repo.available|
    ensures var d := repo.available[m]; var p := ProfileOf(repo, d);
            Counts(repo, exclude, a, m, j) <==>
              p.Profile? && p.recordsState && CountsIn(ManifestRows(p), d, exclude, a, j)
  {
  }

  predicate CountsIn(rows: seq<Row>, domain: string, exclude: Option<string>, a: int, j: int) {
    0 <= j < |rows| && rows[j].addr == a && rows[j].state != "dead" && exclude != Some(domain)
  }

  ghost predicate LastIn(rows: seq<Row>, domain: string, exclude: Option<string>, a: int, j: int) {
    CountsIn(rows, domain, exclude, a, j) && forall i | CountsIn(rows, domain, exclude, a, i) :: i <= j
  }

  ghost predicate GradedInRight(rows: seq<Row>, domain: string, exclude: Option<string>, a: int,
                                graded: Option<Status>) {
    match graded
    case None => forall j :: !CountsIn(rows, domain, exclude, a, j)
    case Some(status) => exists j :: LastIn(rows, domain, exclude, a, j) && status == StatusOf(rows[j].state)
  }

  lemma {:induction false} GradedInDomain(rows: seq<Row>, domain: string, exclude: Option<string>, a: int)
    ensures GradedInRight(rows, domain, exclude, a, LastOther(Live(rows, domain), exclude, a))
  {
    if rows != [] {
      var n := |rows| - 1;
      var init, last := rows[..n], rows[n];
      GradedInDomain(init, domain, exclude, a);
      LastLive(rows, domain, exclude, a);
      forall j | j != n
        ensures CountsIn(rows, domain, exclude, a, j) <==> CountsIn(init, domain, exclude, a, j)
      {
      }
      if CountsIn(rows, domain, exclude, a, n) {
        assert LastIn(rows, domain, exclude, a, n);
      } else if LastOther(Live(init, domain), exclude, a).Some? {
        var j :| LastIn(init, domain, exclude, a, j)
                 && LastOther(Live(init, domain), exclude, a).value == StatusOf(init[j].state);
        assert LastIn(rows, domain, exclude, a, j) && rows[j] == init[j];
      }
    }
  }

  /** What the last row of a manifest adds. */
  lemma {:induction false} LastLive(rows: seq<Row>, domain: string, exclude: Option<string>, a: int)
    requires rows != []
    ensures LastOther(Live(rows, domain), exclude, a)
         == if CountsIn(rows, domain, exclude, a, |rows| - 1) then Some(StatusOf(rows[|rows| - 1].state))
            else LastOther(Live(rows[..|rows| - 1], domain), exclude, a)
  {
    var init, last := Live(rows[..|rows| - 1], domain), rows[|rows| - 1];
    if last.state == "dead" {
      EmptyAppend(init);
    } else {
      LastOneSnoc(init, LedgerRow(last.addr, StatusOf(last.state), domain, last.promoted), exclude, a);
    }
  }

  lemma LastOneSnoc(rows: seq<LedgerRow>, row: LedgerRow, exclude: Option<string>, a: int)
    ensures LastOther(rows + [row], exclude, a)
         == if row.addr == a && exclude != Some(row.domain) then Some(row.status) else LastOther(rows, exclude, a)
  {
    assert (rows + [row])[..|rows|] == rows;
  }

  /** The ledger, row by row: a dead row leaves nothing, any other its address, status, domain and
      promotion; rows and domains follow each other in order. */
  lemma {:induction false} LedgerRowByRow(rows: seq<Row>, row: Row, domain: string)
    ensures Live([], domain) == []
    ensures Live(rows + [row], domain) == Live(rows, domain)
              + if row.state == "dead" then []
                else [LedgerRow(row.addr, if row.state == "verified" then Done else Planned, domain, row.promoted)]
  {
    assert (rows + [row])[..|rows|] == rows;
  }

  lemma {:induction false} LedgerDomainByDomain(repo: Repo, domains: seq<string>, d: string)
    ensures LedgerRows(repo, []) == []
    ensures LedgerRows(repo, domains + [d]) == LedgerRows(repo, domains)
              + if d in repo.profiles && repo.profiles[d].Profile? && repo.profiles[d].recordsState
                   && repo.profiles[d].manifest.Some?
                then Live(repo.profiles[d].manifest.value, d) else []
  {
    assert (domains + [d])[..|domains|] == domains;
  }
}
