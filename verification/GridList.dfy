/** The cache of loaded grid files and the list of grids for the last request. */
module GridLists {
  import opened Wrappers

  /** One grid of a file. A grid that could not be read is a stub: it is not valid. */
  datatype GridInfo = GridInfo(gridname: string, part: nat, valid: bool)

  /** The files that can be opened: for each grid in them, whether it can be read. */
  type Files = map<string, seq<bool>>

  /** Initialises the named file. There is always something to put into the cache, if only a stub. */
  function GridInfoInit(files: Files, name: string): (r: seq<GridInfo>)
    ensures r != [] && forall k {:trigger r[k]} :: 0 <= k < |r| ==> r[k].gridname == name
  {
    if name in files && files[name] != [] then
      seq(|files[name]|, k requires 0 <= k < |files[name]| => GridInfo(name, k, files[name][k]))
    else
      [GridInfo(name, 0, false)]
  }

  // --- The cache

  function Named(s: seq<GridInfo>, name: string): seq<GridInfo> {
    if s == [] then []
    else Named(s[..|s| - 1], name) + if s[|s| - 1].gridname == name then [s[|s| - 1]] else []
  }

  /** What the cache should hold under a name. */
  ghost function Cached(files: Files, initialised: set<string>, name: string): seq<GridInfo> {
    if name in initialised then GridInfoInit(files, name) else []
  }

  ghost predicate HoldsInitialised(gridList: seq<GridInfo>, files: Files, initialised: set<string>) {
    forall name: string {:trigger Named(gridList, name)} :: Named(gridList, name) == Cached(files, initialised, name)
  }

  lemma {:induction false} NamedSum(s: seq<GridInfo>, t: seq<GridInfo>, name: string)
    ensures Named(s + t, name) == Named(s, name) + Named(t, name)
  {
    if t == [] {
      assert s + t == s;
    } else {
      var u, x := t[..|t| - 1], t[|t| - 1];
      assert t == u + [x];
      NamedSum(s, u, name);
      NamedSumNext(s, u, x, name);
    }
  }

  lemma NamedSumNext(s: seq<GridInfo>, u: seq<GridInfo>, x: GridInfo, name: string)
    requires Named(s + u, name) == Named(s, name) + Named(u, name)
    ensures Named(s + (u + [x]), name) == Named(s, name) + Named(u + [x], name)
  {
    var v, w := s + u, u + [x];
    Regroup(s, u, [x], v, w);
    NamedOneMore(v, x, name);
    NamedOneMore(u, x, name);
    Regroup(Named(s, name), Named(u, name), if x.gridname == name then [x] else [], Named(v, name), Named(w, name));
  }

  lemma Regroup(a: seq<GridInfo>, b: seq<GridInfo>, c: seq<GridInfo>, ab: seq<GridInfo>, bc: seq<GridInfo>)
    requires ab == a + b && bc == b + c
    ensures ab + c == a + bc
  {
  }

  lemma NamedOneMore(s: seq<GridInfo>, x: GridInfo, name: string)
    ensures Named(s + [x], name) == Named(s, name) + if x.gridname == name then [x] else []
  {
    assert (s + [x])[..|s|] == s;
  }

  lemma {:induction false} NamedUniform(s: seq<GridInfo>, own: string, name: string)
    requires forall k :: 0 <= k < |s| ==> s[k].gridname == own
    ensures Named(s, name) == if own == name then s else []
  {
    if s != [] {
      NamedUniform(s[..|s| - 1], own, name);
      assert s == s[..|s| - 1] + [s[|s| - 1]];
    }
  }

  lemma NothingInitialised(files: Files)
    ensures HoldsInitialised([], files, {})
  {
  }

  lemma InitialisedNext(gridList: seq<GridInfo>, files: Files, initialised: set<string>, name: string)
    requires HoldsInitialised(gridList, files, initialised) && name !in initialised
    ensures HoldsInitialised(gridList + GridInfoInit(files, name), files, initialised + {name})
  {
    var own := GridInfoInit(files, name);
    forall n: string {:trigger Named(gridList + own, n)}
      ensures Named(gridList + own, n) == Cached(files, initialised + {name}, n)
    {
      InitialisedOne(gridList, files, initialised, name, own, n);
    }
  }

  lemma InitialisedOne(gridList: seq<GridInfo>, files: Files, initialised: set<string>, name: string,
                       own: seq<GridInfo>, n: string)
    requires Named(gridList, n) == Cached(files, initialised, n) && name !in initialised &&
      own == GridInfoInit(files, name)
    ensures Named(gridList + own, n) == Cached(files, initialised + {name}, n)
  {
    NamedSum(gridList, own, n);
    NamedUniform(own, name, n);
    if n == name { assert n !in initialised; }
  }

  // --- What a request asks for

  /** The grids before the first that is not valid. */
  function Usable(s: seq<GridInfo>): seq<GridInfo> {
    if s == [] || !s[0].valid then [] else [s[0]] + Usable(s[1..])
  }

  ghost predicate AllValid(s: seq<GridInfo>) {
    forall k :: 0 <= k < |s| ==> s[k].valid
  }

  lemma {:induction false} UsableAll(s: seq<GridInfo>)
    requires AllValid(s)
    ensures Usable(s) == s
  {
    if s != [] { UsableAll(s[1..]); }
  }

  lemma {:induction false} UsableUpTo(s: seq<GridInfo>, x: GridInfo, t: seq<GridInfo>)
    requires AllValid(s) && !x.valid
    ensures Usable(s + [x] + t) == s
  {
    if s != [] {
      UsableUpTo(s[1..], x, t);
      assert (s + [x] + t)[1..] == s[1..] + [x] + t;
    }
  }

  datatype Request = Request(name: string, required: bool)

  /** The length of the text before the first comma. */
  function EndChar(s: string): (n: nat)
    ensures n <= |s| && (n < |s| ==> s[n] == ',') && forall k :: 0 <= k < n ==> s[k] != ','
  {
    if s == [] || s[0] == ',' then 0 else 1 + EndChar(s[1..])
  }

  /** The names in the text, separated by commas; an at sign before a name says that the grid is optional. */
  function Requests(s: string): seq<Request>
    decreases |s|
  {
    if s == [] then [] else [Request(Unmarked(s)[..EndChar(Unmarked(s))], s[0] != '@')] + Requests(Further(s))
  }

  /** The text without its at sign. */
  function Unmarked(s: string): string
    requires s != []
  {
    if s[0] == '@' then s[1..] else s
  }

  /** The text after the first name and its comma. */
  function Further(s: string): (r: string)
    requires s != []
    ensures |r| < |s|
  {
    var t := Unmarked(s);
    if EndChar(t) < |t| then t[EndChar(t) + 1..] else []
  }

  const NAME_SIZE := 128

  /** The grids found for the requests, up to the first that fails, and whether none failed. */
  datatype Outcome = Outcome(grids: seq<GridInfo>, ok: bool)

  ghost predicate Accepted(files: Files, r: Request) {
    |r.name| <= NAME_SIZE && (r.required ==> AllValid(GridInfoInit(files, r.name)))
  }

  /** The grids that a name adds to the list; a name that is too long is not looked up. */
  ghost function Taken(files: Files, r: Request): seq<GridInfo> {
    if |r.name| > NAME_SIZE then [] else Usable(GridInfoInit(files, r.name))
  }

  ghost function Found(files: Files, rs: seq<Request>): Outcome {
    if rs == [] then Outcome([], true)
    else if !Accepted(files, rs[0]) then Outcome(Taken(files, rs[0]), false)
    else
      var rest := Found(files, rs[1..]);
      Outcome(Taken(files, rs[0]) + rest.grids, rest.ok)
  }

  ghost function Grids(files: Files, nadgrids: string): Outcome {
    Found(files, Requests(nadgrids))
  }

  /** What a call gives: the number of grids, the error, and what the returned list holds up to its null; there is none
      for the null pointer. */
  datatype Answer = Answer(gridCount: nat, errno: int, list: Option<seq<GridInfo>>)

  const NO_GRIDS := -38

  function FirstAnswer(o: Outcome): Answer {
    if !o.ok then Answer(0, NO_GRIDS, None)
    else Answer(|o.grids|, 0, if o.grids == [] then None else Some(o.grids))
  }

  /** The answer to a request that is made again, when the array of the cache holds what is given. */
  function RepeatedAnswer(o: Outcome, held: Option<seq<GridInfo>>): Answer {
    Answer(|o.grids|, if o.grids == [] then NO_GRIDS else 0, if o.grids == [] then held else Some(o.grids))
  }

  /** The grids of an array up to the first null. */
  function UpToNull(slots: seq<Option<GridInfo>>): seq<GridInfo> {
    if slots == [] || slots[0] == None then [] else [slots[0].value] + UpToNull(slots[1..])
  }

  /** What an array holds; an array without slots stands for the null pointer. */
  function Held(slots: seq<Option<GridInfo>>): Option<seq<GridInfo>> {
    if slots == [] then None else Some(UpToNull(slots))
  }

  lemma {:induction false} TerminatedList(slots: seq<Option<GridInfo>>, grids: seq<GridInfo>)
    requires |grids| < |slots| && slots[|grids|] == None
    requires forall k {:trigger slots[k]} :: 0 <= k < |grids| ==> slots[k] == Some(grids[k])
    ensures UpToNull(slots) == grids
  {
    if grids != [] {
      assert slots[0] == Some(grids[0]);
      TerminatedList(slots[1..], grids[1..]);
      assert grids == [grids[0]] + grids[1..];
    }
  }

  /** All names can be taken as the request demands. */
  ghost predicate AllAccepted(files: Files, rs: seq<Request>) {
    forall k :: 0 <= k < |rs| ==> Accepted(files, rs[k])
  }

  /** Name k contributes a grid, and all before it are accepted. */
  ghost predicate TakenAt(files: Files, rs: seq<Request>, k: nat)
    requires k < |rs|
  {
    AllAccepted(files, rs[..k]) && Taken(files, rs[k]) != []
  }

  /** Some name contributes a grid before or at the first that is rejected. */
  ghost predicate SomeTaken(files: Files, rs: seq<Request>) {
    exists k: nat {:trigger TakenAt(files, rs, k)} :: k < |rs| && TakenAt(files, rs, k)
  }

  /** A request succeeds exactly if every name is accepted, and leaves a list exactly if some name adds to it in
      time. */
  lemma {:induction false} FoundWhen(files: Files, rs: seq<Request>)
    ensures Found(files, rs).ok <==> AllAccepted(files, rs)
    ensures Found(files, rs).grids != [] <==> SomeTaken(files, rs)
  {
    if rs != [] {
      var rest := rs[1..];
      FoundWhen(files, rest);
      assert rs == [rs[0]] + rest;
      SomeTakenStep(files, rs[0], rest);
    }
  }

  // --- The grids of a request, in terms of the files

  /** A name that ends the reading of a request: it is too long, or it is required and its file is missing, empty or
      has a grid that cannot be read. */
  ghost predicate Refused(files: Files, r: Request) {
    |r.name| > 128 || (r.required && !(r.name in files && files[r.name] != [] && false !in files[r.name]))
  }

  /** A grid of a request: which name it belongs to, and its number in the file of that name. */
  datatype Place = Place(request: nat, part: nat)

  /** Names are looked up as far as the first that is refused, and this one too unless it is too long; of each file,
      the grids before the first that cannot be read are loaded. */
  ghost predicate Loads(files: Files, rs: seq<Request>, p: Place) {
    && p.request < |rs| && (forall j :: 0 <= j < p.request ==> !Refused(files, rs[j]))
    && IsLoaded(files, rs[p.request].name, p.part)
  }

  ghost predicate IsLoaded(files: Files, name: string, part: nat) {
    |name| <= 128 && name in files && part < |files[name]| && forall k :: 0 <= k <= part ==> files[name][k]
  }

  predicate Earlier(p: Place, q: Place) {
    p.request < q.request || (p.request == q.request && p.part < q.part)
  }

  /** The grids are exactly those that the request loads, in the order of the names and of the files. */
  ghost predicate AreGridsOf(files: Files, rs: seq<Request>, grids: seq<GridInfo>) {
    exists places :: AreGridsAt(files, rs, grids, places)
  }

  ghost predicate AreGridsAt(files: Files, rs: seq<Request>, grids: seq<GridInfo>, places: seq<Place>) {
    && |places| == |grids|
    && (forall t {:trigger places[t]} :: 0 <= t < |places| ==>
      Loads(files, rs, places[t]) && grids[t] == GridInfo(rs[places[t].request].name, places[t].part, true))
    && (forall s, t {:trigger Earlier(places[s], places[t])} :: 0 <= s < t < |places| ==> Earlier(places[s], places[t]))
    && (forall p {:trigger Loads(files, rs, p)} :: Loads(files, rs, p) ==> p in places)
  }

  /** What is found for a request. */
  lemma {:induction false} FoundInOrder(files: Files, rs: seq<Request>)
    ensures AreGridsOf(files, rs, Found(files, rs).grids)
    ensures Found(files, rs).ok <==> forall j :: 0 <= j < |rs| ==> !Refused(files, rs[j])
  {
    if rs == [] {
      assert AreGridsAt(files, rs, [], []);
    } else {
      var r, rest := rs[0], rs[1..];
      assert rs == [r] + rest;
      AcceptedUnlessRefused(files, r);
      TakenIsLoaded(files, r);
      var own := FirstPlaces(|Taken(files, r)|);
      if Accepted(files, r) {
        FoundInOrder(files, rest);
        var places :| AreGridsAt(files, rest, Found(files, rest).grids, places);
        OwnFirst(files, r, rest, own, places);
      } else {
        OwnOnly(files, r, rest, own);
      }
    }
  }

  function FirstPlaces(n: nat): (places: seq<Place>)
    ensures |places| == n && forall k {:trigger places[k]} :: 0 <= k < n ==> places[k] == Place(0, k)
  {
    seq(n, k requires k >= 0 => Place(0, k))
  }

  lemma OwnOnly(files: Files, r: Request, rest: seq<Request>, own: seq<Place>)
    requires Refused(files, r) && own == FirstPlaces(|Taken(files, r)|) && AreTaken(files, r, Taken(files, r))
    ensures AreGridsAt(files, [r] + rest, Taken(files, r), own)
  {
    var rs := [r] + rest;
    assert Refused(files, rs[0]);
    forall p | Loads(files, rs, p) ensures p in own {
      assert p.request == 0;
      assert own[p.part] == p;
    }
  }

  function Shifted(places: seq<Place>): (r: seq<Place>)
    ensures |r| == |places| && forall t {:trigger r[t]} :: 0 <= t < |r| ==>
      r[t] == Place(places[t].request + 1, places[t].part)
  {
    seq(|places|, t requires 0 <= t < |places| => Place(places[t].request + 1, places[t].part))
  }

  lemma OwnFirst(files: Files, r: Request, rest: seq<Request>, own: seq<Place>, places: seq<Place>)
    requires !Refused(files, r) && own == FirstPlaces(|Taken(files, r)|) && AreTaken(files, r, Taken(files, r))
    requires AreGridsAt(files, rest, Found(files, rest).grids, places)
    ensures AreGridsAt(files, [r] + rest, Taken(files, r) + Found(files, rest).grids, own + Shifted(places))
  {
    hide Refused, IsLoaded, Loads, Taken, Found, Earlier;
    var rs, mine, theirs := [r] + rest, Taken(files, r), Found(files, rest).grids;
    var all, grids := own + Shifted(places), mine + theirs;
    forall p | Loads(files, rs, p) ensures p in all {
      Covered(files, r, rest, own, places, p);
    }
    forall t {:trigger all[t]} | 0 <= t < |all|
      ensures Loads(files, rs, all[t]) && all[t].request < |rs|
      ensures grids[t] == GridInfo(rs[all[t].request].name, all[t].part, true)
    {
      LoadsLater(files, r, rest, all[t]);
      if t >= |own| { assert all[t] == Shifted(places)[t - |own|]; }
    }
    InOrder(own, places);
  }

  lemma Covered(files: Files, r: Request, rest: seq<Request>, own: seq<Place>, places: seq<Place>, p: Place)
    requires !Refused(files, r) && Loads(files, [r] + rest, p)
    requires own == FirstPlaces(|own|) && forall k: nat :: IsLoaded(files, r.name, k) ==> k < |own|
    requires forall q {:trigger Loads(files, rest, q)} :: Loads(files, rest, q) ==> q in places
    ensures p in own + Shifted(places)
  {
    hide Refused, IsLoaded, Loads;
    LoadsLater(files, r, rest, p);
    if p.request == 0 {
      assert own[p.part] == p;
    } else {
      var t :| 0 <= t < |places| && places[t] == Place(p.request - 1, p.part);
      assert Shifted(places)[t] == p;
    }
  }

  lemma InOrder(own: seq<Place>, places: seq<Place>)
    requires own == FirstPlaces(|own|)
    requires forall s, t {:trigger Earlier(places[s], places[t])} :: 0 <= s < t < |places| ==>
      Earlier(places[s], places[t])
    ensures var all := own + Shifted(places);
      forall s, t {:trigger Earlier(all[s], all[t])} :: 0 <= s < t < |all| ==> Earlier(all[s], all[t])
  {
    var all := own + Shifted(places);
    forall s, t | 0 <= s < t < |all| ensures Earlier(all[s], all[t]) {
      if s >= |own| {
        assert Earlier(places[s - |own|], places[t - |own|]);
        assert all[s] == Shifted(places)[s - |own|] && all[t] == Shifted(places)[t - |own|];
      } else if t >= |own| {
        assert all[t] == Shifted(places)[t - |own|];
      }
    }
  }

  lemma LoadsLater(files: Files, r: Request, rest: seq<Request>, p: Place)
    requires !Refused(files, r)
    ensures Loads(files, [r] + rest, p) <==>
      if p.request == 0 then IsLoaded(files, r.name, p.part) else Loads(files, rest, Place(p.request - 1, p.part))
    ensures Loads(files, [r] + rest, p) ==> p.request <= |rest|
  {
    hide Refused, IsLoaded;
    var rs := [r] + rest;
    if p.request > 0 {
      if Loads(files, rs, p) {
        forall j | 0 <= j < p.request - 1 ensures !Refused(files, rest[j]) { assert rs[j + 1] == rest[j]; }
      } else if Loads(files, rest, Place(p.request - 1, p.part)) {
        forall j | 0 <= j < p.request ensures !Refused(files, rs[j]) {
          if j > 0 { assert rs[j] == rest[j - 1]; }
        }
      }
    }
  }

  /** The loaded grids of one name. */
  ghost predicate AreTaken(files: Files, r: Request, grids: seq<GridInfo>) {
    && (forall k {:trigger grids[k]} :: 0 <= k < |grids| ==> grids[k] == GridInfo(r.name, k, true))
    && (forall k: nat {:trigger IsLoaded(files, r.name, k)} :: IsLoaded(files, r.name, k) <==> k < |grids|)
  }

  lemma TakenIsLoaded(files: Files, r: Request)
    ensures AreTaken(files, r, Taken(files, r))
  {
    if |r.name| <= NAME_SIZE {
      var all := GridInfoInit(files, r.name);
      UsableIsPrefix(all);
      var u := Usable(all);
      forall k: nat ensures IsLoaded(files, r.name, k) <==> k < |u| {
        LoadedBefore(files, r.name, u, k);
      }
      if u != [] { LoadedBefore(files, r.name, u, 0); }
    }
  }

  lemma LoadedBefore(files: Files, name: string, u: seq<GridInfo>, k: nat)
    requires |name| <= NAME_SIZE
    requires var all := GridInfoInit(files, name);
      |u| <= |all| && u == all[..|u|] && AllValid(u) && (|u| < |all| ==> !all[|u|].valid)
    ensures IsLoaded(files, name, k) <==> k < |u|
  {
    var all := GridInfoInit(files, name);
    if name in files && files[name] != [] {
      var valid := files[name];
      assert |all| == |valid|;
      forall j | 0 <= j < |all| ensures all[j] == GridInfo(name, j, valid[j]) {
      }
      if k < |u| {
        forall j | 0 <= j <= k ensures valid[j] { assert u[j].valid; }
      } else if k < |valid| {
        assert !valid[|u|];
      }
    } else {
      assert |all| == 1 && !all[0].valid && u == all[..|u|];
    }
  }

  lemma {:induction false} UsableIsPrefix(s: seq<GridInfo>)
    ensures var u := Usable(s); |u| <= |s| && u == s[..|u|] && AllValid(u) && (|u| < |s| ==> !s[|u|].valid)
  {
    if s != [] && s[0].valid {
      UsableIsPrefix(s[1..]);
    }
  }

  lemma AcceptedUnlessRefused(files: Files, r: Request)
    ensures Accepted(files, r) <==> !Refused(files, r)
  {
    var all := GridInfoInit(files, r.name);
    if r.name in files && files[r.name] != [] {
      var valid := files[r.name];
      assert forall k :: 0 <= k < |valid| ==> all[k].valid == valid[k];
      if false in valid {
        var k :| 0 <= k < |valid| && !valid[k];
        assert !all[k].valid;
      }
    } else {
      assert !all[0].valid;
    }
  }

  /** The same names, of which more may be optional. */
  ghost predicate Relaxes(rs: seq<Request>, other: seq<Request>) {
    |rs| == |other| && forall k {:trigger other[k]} :: 0 <= k < |rs| ==>
      other[k].name == rs[k].name && (other[k].required ==> rs[k].required)
  }

  /** Making names optional changes nothing about a request that succeeds. */
  lemma {:induction false} RelaxedRequest(files: Files, rs: seq<Request>, other: seq<Request>)
    requires Relaxes(rs, other) && Found(files, rs).ok
    ensures Found(files, other) == Found(files, rs)
  {
    if rs != [] {
      assert Relaxes(rs[1..], other[1..]);
      assert other[0].name == rs[0].name;
      RelaxedRequest(files, rs[1..], other[1..]);
    }
  }

  /** An optional grid is found like any other, and if it is missing there is no error. */
  lemma OptionalGrid(files: Files)
    requires "a" in files && files["a"] == [true] && "b" !in files
    ensures FirstAnswer(Grids(files, "@a")) == Answer(1, 0, Some([GridInfo("a", 0, true)]))
    ensures FirstAnswer(Grids(files, "@b")) == Answer(0, 0, None)
  {
    OneFoundOneNot(files);
    OptionalName("a");
    OptionalName("b");
    RelaxedRequest(files, [Request("a", true)], [Request("a", false)]);
    assert GridInfoInit(files, "b")[0].valid == false;
    assert Usable(GridInfoInit(files, "b")) == [];
    FirstFound(files, Request("b", false), []);
    assert [Request("b", false)] + [] == [Request("b", false)];
  }

  lemma OptionalName(name: string)
    requires |name| == 1 && name[0] != ',' && name[0] != '@'
    ensures Requests("@" + name) == [Request(name, false)] && Requests(name) == [Request(name, true)]
  {
    assert EndChar(name) == 1 by { assert EndChar(name[1..]) == 0; }
    assert name[..1] == name && Requests([]) == [];
    assert Unmarked("@" + name) == name;
  }

  lemma SomeTakenStep(files: Files, r: Request, rest: seq<Request>)
    ensures SomeTaken(files, [r] + rest) <==> Taken(files, r) != [] || (Accepted(files, r) && SomeTaken(files, rest))
  {
    hide Accepted, Taken;
    var rs := [r] + rest;
    if TakenAt(files, rs, 0) { assert rs[0] == r; }
    assert TakenAt(files, rs, 0) <==> Taken(files, r) != [] by { assert rs[..0] == [] && rs[0] == r; }
    forall k: nat {:trigger TakenAt(files, rest, k)} | k < |rest|
      ensures TakenAt(files, rs, k + 1) <==> Accepted(files, r) && TakenAt(files, rest, k)
    {
      TakenLater(files, r, rest, k);
    }
    if k :| 0 < k < |rs| && TakenAt(files, rs, k) {
      TakenLater(files, r, rest, k - 1);
    }
  }

  lemma TakenLater(files: Files, r: Request, rest: seq<Request>, k: nat)
    requires k < |rest|
    ensures TakenAt(files, [r] + rest, k + 1) <==> Accepted(files, r) && TakenAt(files, rest, k)
  {
    assert ([r] + rest)[..k + 1] == [r] + rest[..k] && ([r] + rest)[k + 1] == rest[k];
    AcceptedFirst(files, r, rest[..k]);
  }

  lemma AcceptedFirst(files: Files, r: Request, rest: seq<Request>)
    ensures AllAccepted(files, [r] + rest) <==> Accepted(files, r) && AllAccepted(files, rest)
  {
    var rs := [r] + rest;
    if AllAccepted(files, rs) {
      assert Accepted(files, rs[0]);
      forall k | 0 <= k < |rest| ensures Accepted(files, rest[k]) { assert rs[k + 1] == rest[k]; }
    }
  }

  /** Some of the requests leaves a list, and so an array. */
  ghost predicate SomeLeft(files: Files, requested: seq<string>) {
    exists k {:trigger requested[k]} :: 0 <= k < |requested| && SomeTaken(files, Requests(requested[k]))
  }

  lemma SomeLeftNext(files: Files, requested: seq<string>, nadgrids: string)
    ensures SomeLeft(files, requested + [nadgrids]) <==>
      SomeLeft(files, requested) || Grids(files, nadgrids).grids != []
  {
    FoundWhen(files, Requests(nadgrids));
    var more := requested + [nadgrids];
    assert more[|requested|] == nadgrids;
    forall k {:trigger requested[k]} | 0 <= k < |requested| ensures more[k] == requested[k] {
    }
    if SomeLeft(files, requested) {
      var k :| 0 <= k < |requested| && SomeTaken(files, Requests(requested[k]));
      assert more[k] == requested[k];
    }
  }

  /** Either all names are accepted and some contributes a grid in time, or neither is so and no request so far has left
      an array. */
  ghost predicate AnsweredAlike(files: Files, requested: seq<string>, nadgrids: string) {
    var rs := Requests(nadgrids);
    if AllAccepted(files, rs) then SomeTaken(files, rs) else !SomeTaken(files, rs) && !SomeLeft(files, requested)
  }

  /** When asking again gives the same answer, after the given requests. */
  lemma SameAnswer(files: Files, requested: seq<string>, nadgrids: string, held: Option<seq<GridInfo>>)
    requires held.Some? <==> SomeLeft(files, requested)
    ensures RepeatedAnswer(Grids(files, nadgrids), held) == FirstAnswer(Grids(files, nadgrids)) <==>
      AnsweredAlike(files, requested, nadgrids)
  {
    FoundWhen(files, Requests(nadgrids));
  }

  /** A failed request that is answered with a list when it is repeated. */
  lemma PartialListRemembered(files: Files, held: Option<seq<GridInfo>>)
    requires "a" in files && files["a"] == [true] && "b" !in files
    ensures FirstAnswer(Grids(files, "a,b")) == Answer(0, NO_GRIDS, None)
    ensures RepeatedAnswer(Grids(files, "a,b"), held) == Answer(1, 0, Some([GridInfo("a", 0, true)]))
  {
    var s := "a,b";
    assert EndChar(s) == 1 && s[..1] == "a" && s[2..] == "b";
    assert EndChar("b") == 1 && "b"[..1] == "b";
    assert Requests("b") == [Request("b", true)] + Requests([]);
    assert Requests(s) == [Request("a", true), Request("b", true)];
    var rs := Requests(s);
    assert rs[1..] == [Request("b", true)];
    assert Usable(GridInfoInit(files, "a")) == GridInfoInit(files, "a") && Usable(GridInfoInit(files, "b")) == [];
    assert GridInfoInit(files, "a") == [GridInfo("a", 0, true)];
    assert !GridInfoInit(files, "b")[0].valid;
    assert Found(files, rs[1..]) == Outcome([], false);
  }

  // --- Reading requests back

  function Written(r: Request): string {
    (if r.required then "" else "@") + r.name
  }

  function Joined(rs: seq<Request>): string {
    if rs == [] then "" else if |rs| == 1 then Written(rs[0]) else Written(rs[0]) + "," + Joined(rs[1..])
  }

  ghost predicate Readable(r: Request) {
    ',' !in r.name && (r.required ==> r.name == [] || r.name[0] != '@')
  }

  lemma {:induction false} EndOfName(name: string, rest: string)
    requires ',' !in name && (rest == [] || rest[0] == ',')
    ensures EndChar(name + rest) == |name|
  {
    if name == [] {
      assert name + rest == rest;
    } else {
      assert name[0] != ',';
      assert (name + rest)[1..] == name[1..] + rest;
      EndOfName(name[1..], rest);
    }
  }

  /** What is written as a request string is read back, unless the last name is empty and required: nothing is read
      after a trailing comma. */
  lemma {:induction false} RequestsJoined(rs: seq<Request>)
    requires forall k :: 0 <= k < |rs| ==> Readable(rs[k])
    requires rs != [] ==> Written(rs[|rs| - 1]) != ""
    ensures Requests(Joined(rs)) == rs
  {
    if rs != [] {
      var r, more := rs[0], rs[1..];
      assert Readable(r) && rs == [r] + more;
      if more == [] {
        assert Joined(rs) == Written(r) == Written(r) + "";
        FirstRequest(r, "");
      } else {
        var rest := "," + Joined(more);
        assert Joined(rs) == Written(r) + rest by { assert Joined(rs) == Written(r) + "," + Joined(more); }
        RequestsJoined(more);
        FirstRequest(r, rest);
        assert rest[1..] == Joined(more);
      }
    }
  }

  lemma FirstRequest(r: Request, rest: string)
    requires Readable(r) && (rest == [] || rest[0] == ',') && (rest == [] ==> Written(r) != "")
    ensures Requests(Written(r) + rest) == [r] + Requests(if rest == [] then [] else rest[1..])
  {
    var t := r.name + rest;
    var s := if r.required then t else "@" + t;
    assert s == Written(r) + rest;
    EndOfName(r.name, rest);
    assert t[..|r.name|] == r.name && t[|r.name|..] == rest;
    FirstOf(s, t, r, rest);
  }

  lemma FirstOf(s: string, t: string, r: Request, rest: string)
    requires s != "" && s == (if r.required then t else "@" + t) && (r.required ==> s[0] != '@')
    requires |r.name| <= |t| && EndChar(t) == |r.name| && t[..|r.name|] == r.name && t[|r.name|..] == rest
    ensures Requests(s) == [r] + Requests(if rest == [] then [] else rest[1..])
  {
    assert Unmarked(s) == t;
    assert Further(s) == if rest == [] then [] else rest[1..];
  }

  // --- The cache and its state

  class GridList {
    const files: Files
    /** All grids loaded so far. */
    var gridList: seq<GridInfo>
    /** The list for the last request; an array without elements stands for the null pointer. */
    var lastList: array<Option<GridInfo>>
    var lastMax: nat
    var lastCount: nat
    var lastNadgrids: Option<string>
    var errno: int
    /** The names that were initialised. */
    ghost var initialised: set<string>
    /** The grids of the list. */
    ghost var contents: seq<GridInfo>
    /** The requests so far that were not answered from the list. */
    ghost var requested: seq<string>

    /** The cache holds what was initialised, once. */
    ghost predicate CacheSound()
      reads this`gridList, this`initialised
    {
      HoldsInitialised(gridList, files, initialised)
    }

    /** The list ends with a null within its capacity, unless it is empty: then its slots hold what they held before,
        which begins with a grid. */
    ghost predicate ListSound()
      reads this`lastList, this`lastMax, this`lastCount, this`contents, lastList
    {
      && lastMax == lastList.Length && (if lastMax == 0 then lastCount == 0 else lastCount < lastMax)
      && |contents| == lastCount && (forall k {:trigger lastList[k]} :: 0 <= k < lastCount ==>
          lastList[k] == Some(contents[k]))
      && (lastCount > 0 ==> lastList[lastCount] == None) && (lastMax > 0 ==> lastList[0].Some?)
    }

    /** Between calls, the list is that of the last request, and there is an array exactly if some request left one. */
    ghost predicate Valid()
      reads this, lastList
    {
      && CacheSound() && ListSound()
      && (lastNadgrids == None ==> requested == [])
      && (lastMax > 0 <==> SomeLeft(files, requested))
      && (lastNadgrids.Some? ==> contents == Grids(files, lastNadgrids.value).grids)
    }

    constructor (files: Files)
      ensures Valid() && fresh(lastList) && this.files == files && initialised == {} && lastNadgrids == None
    {
      this.files := files;
      gridList, lastMax, lastCount, lastNadgrids, errno := [], 0, 0, None, 0;
      initialised, contents, requested := {}, [], [];
      lastList := new Option<GridInfo>[0];
    }

    /** Puts a grid at the end of the list, which grows if need be. */
    method Append(g: GridInfo)
      requires ListSound()
      modifies this`lastList, this`lastMax, this`lastCount, this`contents, lastList
      ensures ListSound() && (lastList == old(lastList) || fresh(lastList))
      ensures contents == old(contents) + [g]
    {
      if lastCount >= lastMax - 2 {
        var newMax := lastMax + 20;
        var newList := new Option<GridInfo>[newMax];
        for k := 0 to lastMax
          invariant forall t {:trigger newList[t]} :: 0 <= t < k ==> newList[t] == lastList[t]
          modifies newList
        {
          newList[k] := lastList[k];
        }
        lastList := newList;
        lastMax := newMax;
      }
      lastList[lastCount] := Some(g);
      lastCount := lastCount + 1;
      lastList[lastCount] := None;
      contents := contents + [g];
    }

    /** The search through the cache: puts the grids of that name into the list, up to the first that is not valid. */
    method Scan(gridname: string) returns (gotMatch: bool, merged: bool)
      requires ListSound()
      modifies this`lastList, this`lastMax, this`lastCount, this`contents, lastList
      ensures ListSound() && (lastList == old(lastList) || fresh(lastList))
      ensures var own := Named(gridList, gridname);
        (gotMatch <==> own != []) && (merged <==> AllValid(own)) && contents == old(contents) + Usable(own)
      ensures Usable(Named(gridList, gridname)) == [] ==> lastList == old(lastList) && lastList[..] == old(lastList[..])
    {
      gotMatch := false;
      ghost var found: seq<GridInfo> := [];
      for i := 0 to |gridList|
        invariant ListSound() && (lastList == old(lastList) || fresh(lastList))
        invariant Collected(gridList[..i], gridname, found) && contents == old(contents) + found
        invariant gotMatch <==> found != []
        invariant found == [] ==> lastList == old(lastList) && lastList[..] == old(lastList[..])
      {
        CollectedNext(gridList, i, gridname, found);
        if gridList[i].gridname == gridname {
          gotMatch := true;
          if !gridList[i].valid {
            FirstInvalid(gridList, i, gridname);
            return true, false;
          }
          Append(gridList[i]);
          found := found + [gridList[i]];
        }
      }
      CollectedAll(gridList, gridname, found);
      merged := true;
    }

    /** Puts the grids of the named file into the list, up to the first that is not valid, and tells whether all were.
        The file is initialised only if that was never done before. */
    method Merge(gridname: string) returns (merged: bool)
      requires CacheSound() && ListSound()
      modifies this`gridList, this`initialised, this`lastList, this`lastMax, this`lastCount, this`contents, lastList
      ensures CacheSound() && ListSound() && (lastList == old(lastList) || fresh(lastList))
      ensures initialised == old(initialised) + {gridname}
      ensures merged <==> AllValid(GridInfoInit(files, gridname))
      ensures contents == old(contents) + Usable(GridInfoInit(files, gridname))
      ensures Usable(GridInfoInit(files, gridname)) == [] ==>
        lastList == old(lastList) && lastList[..] == old(lastList[..])
      decreases if gridname in initialised then 0 else 1
    {
      assert Named(gridList, gridname) == Cached(files, initialised, gridname);
      var gotMatch;
      gotMatch, merged := Scan(gridname);
      if gotMatch {
        assert initialised + {gridname} == initialised;
        return;
      }
      assert gridname !in initialised && Usable([]) == [] && contents == old(contents);
      Initialise(gridname);
      merged := Merge(gridname);
    }

    /** Initialises a file, which must not have happened before, and appends its grids to the cache. */
    method Initialise(gridname: string)
      requires CacheSound() && gridname !in initialised
      modifies this`gridList, this`initialised
      ensures CacheSound() && initialised == old(initialised) + {gridname}
      ensures gridList == old(gridList) + GridInfoInit(files, gridname)
    {
      var thisGrid := GridInfoInit(files, gridname);
      InitialisedNext(gridList, files, initialised, gridname);
      gridList := gridList + thisGrid;
      initialised := initialised + {gridname};
    }

    /** The position of the next comma, or the length of the text. */
    method FindEnd(s: string) returns (endChar: nat)
      ensures endChar == EndChar(s)
    {
      endChar := 0;
      while endChar < |s| && s[endChar] != ','
        invariant endChar <= |s| && EndChar(s) == endChar + EndChar(s[endChar..])
      {
        assert s[endChar..][1..] == s[endChar + 1..];
        endChar := endChar + 1;
      }
    }

    /** Cuts the first name off a request. */
    method NextName(nadgrids: string) returns (name: string, required: bool, s: string)
      requires nadgrids != []
      ensures Requests(nadgrids) == [Request(name, required)] + Requests(s) && |s| < |nadgrids|
    {
      s := nadgrids;
      required := true;
      if s[0] == '@' {
        required := false;
        s := s[1..];
      }
      var endChar := FindEnd(s);
      name := s[..endChar];
      s := s[endChar..];
      if s != [] { s := s[1..]; }
      assert s == Further(nadgrids);
    }

    /** Deals with the first name of a request. */
    method TakeName(s: string) returns (ok: bool, rest: string, ghost r: Request)
      requires CacheSound() && ListSound() && s != []
      modifies this`gridList, this`initialised, this`lastList, this`lastMax, this`lastCount, this`contents, this`errno,
        lastList
      ensures CacheSound() && ListSound() && (lastList == old(lastList) || fresh(lastList)) &&
        old(initialised) <= initialised
      ensures |rest| < |s| && Requests(s) == [r] + Requests(rest)
      ensures contents == old(contents) + Taken(files, r) && ok == Accepted(files, r) &&
        errno == if ok then 0 else NO_GRIDS
      ensures Taken(files, r) == [] ==> lastList == old(lastList) && lastList[..] == old(lastList[..])
    {
      hide Named, HoldsInitialised;
      var name, required;
      name, required, rest := NextName(s);
      r := Request(name, required);
      if |name| > NAME_SIZE {
        errno := NO_GRIDS;
        return false, rest, r;
      }
      var merged := Merge(name);
      if !merged && required {
        errno := NO_GRIDS;
        return false, rest, r;
      }
      errno := 0;
      ok := true;
    }

    /** The loop over the names of a request. */
    method Collect(nadgrids: string) returns (ok: bool)
      requires CacheSound() && ListSound() && contents == [] && errno == 0
      modifies this`gridList, this`initialised, this`lastList, this`lastMax, this`lastCount, this`contents, this`errno,
        lastList
      ensures CacheSound() && ListSound() && (lastList == old(lastList) || fresh(lastList)) &&
        old(initialised) <= initialised
      ensures contents == Grids(files, nadgrids).grids
      ensures contents == [] ==> lastList == old(lastList) && lastList[..] == old(lastList[..])
      ensures ok == Grids(files, nadgrids).ok && errno == if ok then 0 else NO_GRIDS
    {
      var s := nadgrids;
      ok := true;
      while s != []
        invariant CacheSound() && ListSound() && (lastList == old(lastList) || fresh(lastList))
        invariant old(initialised) <= initialised && errno == 0 && ok
        invariant Follows(Grids(files, nadgrids), contents, Grids(files, s))
        invariant contents == [] ==> lastList == old(lastList) && lastList[..] == old(lastList[..])
        decreases |s|
      {
        ghost var here, before, r := s, contents, Request("", true);
        ok, s, r := TakeName(s);
        FollowsOn(files, Grids(files, nadgrids), before, here, r, s);
        if !ok { return; }
      }
      FollowsEnd(Grids(files, nadgrids), contents);
    }

    /** The answer of a call. */
    ghost function Given(list: Option<array<Option<GridInfo>>>, gridCount: nat): Answer
      reads this`errno, if list.Some? then {list.value} else {}
    {
      Answer(gridCount, errno, if list.Some? then Held(list.value[..]) else None)
    }

    lemma HoldsContents()
      requires ListSound()
      ensures lastCount > 0 ==> Held(lastList[..]) == Some(contents)
      ensures Held(lastList[..]).Some? <==> lastMax > 0
    {
      if lastCount > 0 { TerminatedList(lastList[..], contents); }
    }

    /** A request that is made again is answered from the list. */
    method Again(nadgrids: string) returns (list: Option<array<Option<GridInfo>>>, gridCount: nat)
      requires Valid() && lastNadgrids == Some(nadgrids) && errno == 0
      modifies this`errno
      ensures Valid() && (list == None || (list == Some(lastList) && lastList.Length > 0))
      ensures Given(list, gridCount) == RepeatedAnswer(Grids(files, nadgrids), Held(lastList[..]))
      ensures list.Some? ==> gridCount < lastList.Length
      ensures list.Some? ==> (lastList[gridCount] == None <==> Grids(files, nadgrids).grids != [])
    {
      gridCount := lastCount;
      if gridCount == 0 { errno := NO_GRIDS; }
      HoldsContents();
      list := if lastMax == 0 then None else Some(lastList);
    }

    /** Any other request takes the place of the last one. */
    method Load(nadgrids: string) returns (list: Option<array<Option<GridInfo>>>, gridCount: nat)
      requires Valid() && lastNadgrids != Some(nadgrids) && errno == 0
      modifies this, lastList
      ensures Valid() && (lastList == old(lastList) || fresh(lastList)) && lastNadgrids == Some(nadgrids)
      ensures old(initialised) <= initialised && requested == old(requested) + [nadgrids]
      ensures list == None || (list == Some(lastList) && lastList.Length > 0)
      ensures Given(list, gridCount) == FirstAnswer(Grids(files, nadgrids))
      ensures Grids(files, nadgrids).grids == [] ==> lastList == old(lastList) && lastList[..] == old(lastList[..])
      ensures list.Some? ==> gridCount < lastList.Length && lastList[gridCount] == None && gridCount > 0
    {
      hide SomeLeft, SomeTaken, Found;
      lastNadgrids := Some(nadgrids);
      SomeLeftNext(files, requested, nadgrids);
      requested := requested + [nadgrids];
      lastCount := 0;
      contents := [];
      var ok := Collect(nadgrids);
      HoldsContents();
      if !ok {
        return None, 0;
      }
      if lastCount > 0 {
        list, gridCount := Some(lastList), lastCount;
      } else {
        list, gridCount := None, 0;
      }
    }

    /** The list of grids for a request, and their number. */
    method FromNadgrids(nadgrids: string) returns (list: Option<array<Option<GridInfo>>>, gridCount: nat)
      requires Valid()
      modifies this, lastList
      ensures Valid() && (lastList == old(lastList) || fresh(lastList)) && lastNadgrids == Some(nadgrids)
      ensures old(initialised) <= initialised && (list == None || (list == Some(lastList) && lastList.Length > 0))
      ensures old(lastNadgrids) == Some(nadgrids) ==>
        && Given(list, gridCount) == RepeatedAnswer(Grids(files, nadgrids), Held(lastList[..]))
        && (Given(list, gridCount) == FirstAnswer(Grids(files, nadgrids)) <==>
            AnsweredAlike(files, requested, nadgrids))
        && lastList == old(lastList) && lastList[..] == old(lastList[..]) && lastCount == old(lastCount)
        && gridList == old(gridList) && initialised == old(initialised) && requested == old(requested)
      ensures list.Some? ==> gridCount < lastList.Length
      ensures list.Some? ==> (lastList[gridCount] == None <==> SomeTaken(files, Requests(nadgrids)))
      ensures list.Some? && gridCount > 0 ==> AreGridsOf(files, Requests(nadgrids), UpToNull(lastList[..]))
      ensures old(lastNadgrids) != Some(nadgrids) ==>
        && Given(list, gridCount) == FirstAnswer(Grids(files, nadgrids)) && requested == old(requested) + [nadgrids]
        && (Grids(files, nadgrids).grids == [] ==> lastList == old(lastList) && lastList[..] == old(lastList[..]))
    {
      hide SomeLeft, SomeTaken, Found, Requests, UpToNull, AreGridsOf;
      errno := 0;
      FoundInOrder(files, Requests(nadgrids));
      FoundWhen(files, Requests(nadgrids));
      if lastNadgrids == Some(nadgrids) {
        SameAnswer(files, requested, nadgrids, Held(lastList[..]));
        list, gridCount := Again(nadgrids);
      } else {
        list, gridCount := Load(nadgrids);
      }
    }

    /** Forgets all grids. */
    method Deallocate()
      requires Valid()
      modifies this
      ensures Valid() && gridList == [] && initialised == {} && requested == []
      ensures lastNadgrids == None && lastCount == 0
      ensures lastList == old(lastList) || fresh(lastList)
    {
      hide Found, Named;
      gridList, initialised := [], {};
      NothingInitialised(files);
      if lastNadgrids != None {
        lastNadgrids := None;
        lastList := new Option<GridInfo>[0];
        lastCount := 0;
        lastMax := 0;
        contents, requested := [], [];
      }
    }
  }

  /** A request that fails, made twice after one that found a grid: neither the number of grids nor the error tells the
      answers apart, but the second one has a list, with the grid of the earlier request. */
  method StaleList(files: Files) returns (first: Answer, second: Answer)
    requires "a" in files && files["a"] == [true] && "b" !in files
    ensures first == Answer(0, NO_GRIDS, None) && second.gridCount == 0 && second.errno == NO_GRIDS
    ensures second.list.Some? && second.list.value != [] && second.list.value[0] == GridInfo("a", 0, true)
  {
    OneFoundOneNot(files);
    var cache := new GridList(files);
    var list, gridCount := cache.FromNadgrids("a");
    assert cache.contents == [GridInfo("a", 0, true)];
    list, gridCount := cache.FromNadgrids("b");
    first := Answer(gridCount, cache.errno, None);
    list, gridCount := cache.FromNadgrids("b");
    second := Answer(gridCount, cache.errno, if list == None then None else Some(UpToNull(list.value[..])));
  }

  lemma OneFoundOneNot(files: Files)
    requires "a" in files && files["a"] == [true] && "b" !in files
    ensures Grids(files, "a") == Outcome([GridInfo("a", 0, true)], true)
    ensures Grids(files, "b") == Outcome([], false)
  {
    assert Requests("a") == [Request("a", true)] by {
      assert EndChar("a") == 1 && "a"[..1] == "a";
      assert Requests([]) == [];
    }
    assert Requests("b") == [Request("b", true)] by {
      assert EndChar("b") == 1 && "b"[..1] == "b";
      assert Requests([]) == [];
    }
    assert GridInfoInit(files, "a") == [GridInfo("a", 0, true)];
    UsableAll(GridInfoInit(files, "a"));
    assert Usable(GridInfoInit(files, "b")) == [] && !GridInfoInit(files, "b")[0].valid;
    FirstFound(files, Request("a", true), []);
    FirstFound(files, Request("b", true), []);
  }

  /** The whole outcome is what is in the list and then what the rest of the request gives. */
  ghost predicate Follows(whole: Outcome, contents: seq<GridInfo>, rest: Outcome) {
    whole.grids == contents + rest.grids && whole.ok == rest.ok
  }

  lemma FollowsOn(files: Files, whole: Outcome, before: seq<GridInfo>, here: string, r: Request, rest: string)
    requires Requests(here) == [r] + Requests(rest) && Follows(whole, before, Grids(files, here))
    ensures Accepted(files, r) ==> Follows(whole, before + Taken(files, r), Grids(files, rest))
    ensures !Accepted(files, r) ==> whole == Outcome(before + Taken(files, r), false)
  {
    FirstFound(files, r, Requests(rest));
    if Accepted(files, r) {
      Reassociate(before, Taken(files, r), Grids(files, rest).grids);
    } else {
      assert Taken(files, r) + [] == Taken(files, r);
    }
  }

  lemma FirstFound(files: Files, r: Request, rs: seq<Request>)
    ensures Found(files, [r] + rs) == if Accepted(files, r) then
      Outcome(Taken(files, r) + Found(files, rs).grids, Found(files, rs).ok) else Outcome(Taken(files, r), false)
  {
    assert ([r] + rs)[1..] == rs;
  }

  lemma Reassociate(a: seq<GridInfo>, b: seq<GridInfo>, c: seq<GridInfo>)
    ensures a + (b + c) == (a + b) + c
  {
  }

  lemma FollowsEnd(whole: Outcome, contents: seq<GridInfo>)
    requires Follows(whole, contents, Outcome([], true))
    ensures whole == Outcome(contents, true)
  {
  }

  /** All grids of that name are valid, and these are they. */
  ghost predicate Collected(s: seq<GridInfo>, name: string, found: seq<GridInfo>) {
    found == Named(s, name) && AllValid(found)
  }

  lemma CollectedNext(s: seq<GridInfo>, i: nat, name: string, found: seq<GridInfo>)
    requires i < |s| && Collected(s[..i], name, found)
    ensures s[i].gridname != name ==> Collected(s[..i + 1], name, found)
    ensures s[i].gridname == name && s[i].valid ==> Collected(s[..i + 1], name, found + [s[i]])
  {
    NamedNext(s, i, name);
  }

  lemma CollectedAll(s: seq<GridInfo>, name: string, found: seq<GridInfo>)
    requires Collected(s[..|s|], name, found)
    ensures found == Named(s, name) && AllValid(found) && Usable(found) == found
  {
    assert s[..|s|] == s;
    UsableAll(found);
  }

  lemma NamedNext(s: seq<GridInfo>, i: nat, name: string)
    requires i < |s|
    ensures Named(s[..i + 1], name) == Named(s[..i], name) + if s[i].gridname == name then [s[i]] else []
  {
    assert s[..i + 1][..i] == s[..i];
  }

  lemma FirstInvalid(s: seq<GridInfo>, i: nat, name: string)
    requires i < |s| && s[i].gridname == name && !s[i].valid && AllValid(Named(s[..i], name))
    ensures Usable(Named(s, name)) == Named(s[..i], name) && !AllValid(Named(s, name))
  {
    assert s == s[..i] + [s[i]] + s[i + 1..];
    NamedSum(s[..i] + [s[i]], s[i + 1..], name);
    NamedSum(s[..i], [s[i]], name);
    NamedUniform([s[i]], name, name);
    UsableUpTo(Named(s[..i], name), s[i], Named(s[i + 1..], name));
    assert Named(s, name)[|Named(s[..i], name)|] == s[i];
  }
}
