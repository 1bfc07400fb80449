/** The registry of accessibility providers
    (overlay/components/ohos_accessibility/accessibility_provider_ohos.cc): who may publish,
    who is asked, and where the accessibility focus is. Every locked piece of the source is
    a function of the registry; a run is any sequence of them. */
module AccessibilityProviders {
  import opened Options
  import opened AccessibilityTree

  const ROOT := Node(0, -2100000, [], [], [], true, true, false, false, false, false, false, false)
  const BLANK := Snapshot(0, 0, [0], map[0 := ROOT])

  /** `action` is the callback that carries actions into the engine, if there is one. */
  datatype Provider = Provider(native: nat, window: nat, generation: nat, instance: string, requested: bool,
                               focused: int, snapshot: Snapshot, action: Option<nat>)

  datatype Registry = Registry(providers: map<string, Provider>, next: nat)

  // ---- Instance names --------------------------------------------------------

  function Decimal(n: nat): string {
    var digit := ('0' as int + n % 10) as char;
    if n < 10 then [digit] else Decimal(n / 10) + [digit]
  }

  function InstanceName(component: string, generation: nat): string { component + [':'] + Decimal(generation) }

  /** The number that digits in base ten stand for. */
  function Numeral(s: string): int {
    if s == [] then 0 else 10 * Numeral(s[..|s| - 1]) + s[|s| - 1] as int - '0' as int
  }

  /** A number is written in decimal digits, without a zero in front. */
  lemma {:induction false} DecimalIsNumeral(n: nat)
    ensures Numeral(Decimal(n)) == n && Decimal(n) != []
    ensures forall c :: c in Decimal(n) ==> '0' <= c <= '9'
    ensures n > 0 ==> Decimal(n)[0] != '0'
  {
    if n >= 10 {
      DecimalIsNumeral(n / 10);
      assert Decimal(n)[..|Decimal(n)| - 1] == Decimal(n / 10);
    }
  }

  lemma {:induction false} DecimalDigits(n: nat)
    ensures |Decimal(n)| > 0 && forall i :: 0 <= i < |Decimal(n)| ==> Decimal(n)[i] != ':'
  {
    if n >= 10 {
      DecimalDigits(n / 10);
    }
  }

  lemma {:induction false} DecimalInjective(m: nat, n: nat)
    requires Decimal(m) == Decimal(n)
    ensures m == n
  {
    var s := Decimal(m);
    DecimalDigits(m / 10);
    DecimalDigits(n / 10);
    assert s[|s| - 1] == ('0' as int + m % 10) as char == ('0' as int + n % 10) as char;
    if |s| > 1 {
      assert Decimal(m / 10) == s[..|s| - 1] == Decimal(n / 10);
      DecimalInjective(m / 10, n / 10);
    }
  }

  /** An instance name denotes one component and one generation, whatever characters the
      component's own name has. */
  lemma InstanceNamesDiffer(c: string, g: nat, d: string, h: nat)
    ensures InstanceName(c, g) == InstanceName(d, h) <==> c == d && g == h
  {
    var s, t := InstanceName(c, g), InstanceName(d, h);
    DecimalDigits(g);
    DecimalDigits(h);
    assert s[|c|] == ':' && forall k :: |c| < k < |s| ==> s[k] == Decimal(g)[k - |c| - 1];
    assert t[|d|] == ':' && forall k :: |d| < k < |t| ==> t[k] == Decimal(h)[k - |d| - 1];
    if s == t {
      assert |c| == |d|;
      assert s[|c| + 1..] == Decimal(g) && t[|d| + 1..] == Decimal(h) && s[..|c|] == c && t[..|d|] == d;
      DecimalInjective(g, h);
    }
  }

  // ---- Actions ---------------------------------------------------------------

  datatype Kind = Click | SetText | GainFocus | ClearFocus | ScrollForward | ScrollBackward | Unknown

  /** One call of a provider's action callback. */
  datatype Run = Run(callback: nat, id: int, kind: Kind, text: string)

  /** The conditions on the node, and on who has the focus. */
  predicate Allowed(p: Provider, n: Node, kind: Kind, text: Option<string>) {
    match kind
    case Click => n.enabled && n.clickable
    case SetText => n.enabled && n.editable && text.Some?
    case GainFocus => true
    case ClearFocus => p.focused == n.id
    case ScrollForward => n.scrollable
    case ScrollBackward => n.scrollable
    case Unknown => false
  }

  /** The locked part of Execute, with the callback calls that follow it: moving the focus
      tells the node that loses it first. */
  function Perform(p: Provider, id: int, kind: Kind, text: Option<string>): Option<(Provider, seq<Run>)> {
    var node := GetNode(p.snapshot, id);
    if node.None? || p.action.None? || !Allowed(p, node.value, kind, text) then None
    else
      var to := node.value.id;
      var run := Run(p.action.value, to, kind, if kind.SetText? then text.value else []);
      match kind
      case GainFocus =>
        Some((p.(focused := to),
              (if p.focused != to && p.focused >= 0
               then [Run(p.action.value, p.focused, ClearFocus, [])] else []) + [run]))
      case ClearFocus => Some((p.(focused := -1), [run]))
      case _ => Some((p, [run]))
  }

  /** What one call tells: the focus came, or went. */
  function Tell(s: set<int>, r: Run): set<int> {
    match r.kind
    case GainFocus => s + {r.id}
    case ClearFocus => s - {r.id}
    case _ => s
  }

  /** The nodes that have been told they have the focus and not that they lost it. */
  ghost function Told(s: set<int>, runs: seq<Run>): set<int> {
    if runs == [] then s else Tell(Told(s, runs[..|runs| - 1]), runs[|runs| - 1])
  }

  function Focus(f: int): set<int> { if f == -1 then {} else {f} }

  lemma ToldOne(s: set<int>, r: Run)
    ensures Told(s, []) == s && Told(s, [r]) == Tell(s, r)
  {
    hide Tell;
    assert [r][..0] == [] && Told(s, [r][..0]) == s;
  }

  lemma ToldTwo(s: set<int>, q: Run, r: Run)
    ensures Told(s, [q, r]) == Tell(Tell(s, q), r)
  {
    hide Tell;
    ToldOne(s, q);
    assert [q, r][..1] == [q];
  }

  /** What the nodes are told agrees with where the focus is, and at no moment do two nodes
      believe they have it: except that a node with an id below -1 is not told that it lost
      the focus, and that -1 stands for no node. */
  lemma FocusIsTold(p: Provider, id: int, kind: Kind, text: Option<string>)
    requires Perform(p, id, kind, text).Some?
    ensures var (q, runs) := Perform(p, id, kind, text).value;
            var fair := !kind.GainFocus? || (q.focused != -1 && (p.focused >= -1 || p.focused == q.focused));
            && (Told(Focus(p.focused), runs) == Focus(q.focused) <==> fair)
            && (fair ==> forall n :: 0 <= n <= |runs| ==> |Told(Focus(p.focused), runs[..n])| <= 1)
  {
    hide Told;
    var (q, runs) := Perform(p, id, kind, text).value;
    var s := Focus(p.focused);
    var last := runs[|runs| - 1];
    ToldOne(s, runs[0]);
    if |runs| == 1 {
      assert runs == [last] && runs[..0] == [] && runs[..1] == runs;
      assert kind.GainFocus? ==> Tell(s, last) == s + {q.focused};
      OneMoreFocus(p.focused, q.focused);
    } else {
      assert runs == [runs[0], last] && runs[..0] == [] && runs[..1] == [runs[0]] && runs[..2] == runs;
      ToldTwo(s, runs[0], last);
      assert Tell(s, runs[0]) == {} && Tell({}, last) == {q.focused};
    }
  }

  lemma OneMoreFocus(f: int, g: int)
    ensures Focus(f) + {g} == Focus(g) <==> g != -1 && (f == -1 || f == g)
    ensures Focus(f) + {g} == Focus(g) ==> |Focus(f) + {g}| <= 1
  {
    assert g in Focus(f) + {g} && (f != -1 ==> f in Focus(f) + {g});
  }

  // ---- The locked pieces -----------------------------------------------------

  function Fresh(component: string, native: nat, window: nat, generation: nat): Provider {
    Provider(native, window, generation, InstanceName(component, generation), false, -1, BLANK, None)
  }

  function Register(r: Registry, c: string, native: nat, window: nat): Registry {
    if c in r.providers && r.providers[c].native == native && r.providers[c].window == window then r
    else Registry(r.providers[c := Fresh(c, native, window, r.next + 1)], r.next + 1)
  }

  function Unregister(r: Registry, c: string, window: nat): Registry {
    if c in r.providers && r.providers[c].window == window then r.(providers := r.providers - {c}) else r
  }

  function Update(r: Registry, c: string, p: Provider): Registry { r.(providers := r.providers[c := p]) }

  function Publish(r: Registry, c: string, generation: nat, snapshot: Snapshot, action: Option<nat>): Registry {
    if c !in r.providers || !r.providers[c].requested || r.providers[c].generation != generation then r
    else
      var p := r.providers[c].(action := action);
      if p.snapshot == snapshot then Update(r, c, p)
      else Update(r, c, p.(snapshot := snapshot, focused := if p.focused in snapshot.nodes then p.focused else -1))
  }

  function Clear(r: Registry, c: string, generation: nat, owner: nat): Registry {
    if c !in r.providers || r.providers[c].generation != generation || r.providers[c].snapshot.owner != owner then r
    else Update(r, c, r.providers[c].(action := None, focused := -1, snapshot := BLANK))
  }

  ghost predicate Serves(r: Registry, c: string, instance: string) {
    c in r.providers && r.providers[c].instance == instance
  }

  /** The component whose provider has this instance name. */
  ghost function Holder(r: Registry, instance: string): (h: Option<string>)
    ensures h.Some? <==> exists c :: Serves(r, c, instance)
    ensures h.Some? ==> Serves(r, h.value, instance)
  {
    if exists c :: Serves(r, c, instance) then
      var c :| Serves(r, c, instance);
      Some(c)
    else None
  }

  /** Every query marks the provider it finds as asked for. */
  ghost function Ask(r: Registry, instance: string): Registry {
    var h := Holder(r, instance);
    if h.None? then r else Update(r, h.value, r.providers[h.value].(requested := true))
  }

  /** What executing an action does to the provider of this instance, if it does not fail. */
  ghost function Outcome(r: Registry, instance: string, id: int, kind: Kind, text: Option<string>)
    : Option<(Provider, seq<Run>)>
  {
    var h := Holder(r, instance);
    if h.None? then None else Perform(r.providers[h.value].(requested := true), id, kind, text)
  }

  ghost function Execute(r: Registry, instance: string, id: int, kind: Kind, text: Option<string>): Registry {
    var done := Outcome(r, instance, id, kind, text);
    if done.None? then Ask(r, instance) else Update(r, Holder(r, instance).value, done.value.0)
  }

  // ---- Runs ------------------------------------------------------------------

  datatype Event =
    | Registering(component: string, native: nat, window: nat)
    | Unregistering(component: string, window: nat)
    | Publishing(component: string, generation: nat, snapshot: Snapshot, action: Option<nat>)
    | Clearing(component: string, generation: nat, owner: nat)
    | Asking(instance: string)
    | Executing(instance: string, id: int, kind: Kind, text: Option<string>)

  ghost function Step(r: Registry, e: Event): Registry {
    match e
    case Registering(c, native, window) => Register(r, c, native, window)
    case Unregistering(c, window) => Unregister(r, c, window)
    case Publishing(c, g, snapshot, action) => Publish(r, c, g, snapshot, action)
    case Clearing(c, g, owner) => Clear(r, c, g, owner)
    case Asking(instance) => Ask(r, instance)
    case Executing(instance, id, kind, text) => Execute(r, instance, id, kind, text)
  }

  /** Any sequence of locked pieces. */
  ghost predicate IsRun(states: seq<Registry>, events: seq<Event>) {
    && |states| == |events| + 1 && states[0] == Registry(map[], 0)
    && forall i :: 0 <= i < |events| ==> states[i + 1] == Step(states[i], events[i])
  }

  predicate FocusOk(p: Provider) { p.focused == -1 || p.focused in p.snapshot.nodes }

  /** Nobody who was never asked shows anything but the blank root. */
  predicate Unasked(p: Provider) { p.snapshot == BLANK && p.focused == -1 && p.action == None }

  ghost predicate ProviderOk(r: Registry, c: string, p: Provider) {
    && 0 < p.generation <= r.next && p.instance == InstanceName(c, p.generation)
    && (WellKeyed(p.snapshot) ==> FocusOk(p)) && (p.requested || Unasked(p))
  }

  /** The invariant: names as constructed, generations of their own, and focus on a node of a
      snapshot that keeps its nodes under their own ids. */
  ghost predicate RegistryOk(r: Registry) {
    && (forall c :: c in r.providers ==> ProviderOk(r, c, r.providers[c]))
    && forall c, d | c in r.providers && d in r.providers ::
         r.providers[c].generation == r.providers[d].generation ==> c == d
  }

  /** Taking the focus keeps it on a node of the snapshot exactly when the node is kept
      under its own id. */
  lemma FocusNeedsKeys(p: Provider, id: int, text: Option<string>)
    requires GetNode(p.snapshot, id).Some? && p.action.Some?
    ensures var done := Perform(p, id, GainFocus, text);
            done.Some? && (FocusOk(done.value.0) <==>
              GetNode(p.snapshot, id).value.id == -1 || GetNode(p.snapshot, id).value.id in p.snapshot.nodes)
  {
  }

  lemma PerformOk(p: Provider, id: int, kind: Kind, text: Option<string>)
    requires Perform(p, id, kind, text).Some?
    ensures WellKeyed(p.snapshot) && FocusOk(p) ==> FocusOk(Perform(p, id, kind, text).value.0)
    ensures var q := Perform(p, id, kind, text).value.0; q == p.(focused := q.focused)
  {
  }

  lemma UpdateOk(r: Registry, c: string, p: Provider)
    requires RegistryOk(r) && c in r.providers && p.generation == r.providers[c].generation && ProviderOk(r, c, p)
    ensures RegistryOk(Update(r, c, p))
  {
    var t := Update(r, c, p);
    forall d, e | d in t.providers && e in t.providers && t.providers[d].generation == t.providers[e].generation
      ensures d == e
    {
      assert r.providers[d].generation == r.providers[e].generation;
    }
  }

  lemma RegisterOk(r: Registry, c: string, native: nat, window: nat)
    requires RegistryOk(r)
    ensures RegistryOk(Register(r, c, native, window))
  {
    forall d | d in r.providers ensures r.providers[d].generation != r.next + 1 {
      assert ProviderOk(r, d, r.providers[d]);
    }
  }

  lemma ExecuteOk(r: Registry, instance: string, id: int, kind: Kind, text: Option<string>)
    requires RegistryOk(r)
    ensures RegistryOk(Ask(r, instance)) && RegistryOk(Execute(r, instance, id, kind, text))
  {
    var h := Holder(r, instance);
    if h.Some? {
      var p := r.providers[h.value].(requested := true);
      assert ProviderOk(r, h.value, r.providers[h.value]);
      UpdateOk(r, h.value, p);
      if Perform(p, id, kind, text).Some? {
        PerformOk(p, id, kind, text);
        assert ProviderOk(r, h.value, Perform(p, id, kind, text).value.0);
        UpdateOk(r, h.value, Perform(p, id, kind, text).value.0);
      }
    }
  }

  lemma StepOk(r: Registry, e: Event)
    requires RegistryOk(r)
    ensures RegistryOk(Step(r, e))
  {
    match e
    case Registering(c, native, window) => RegisterOk(r, c, native, window);
    case Unregistering(c, window) =>
    case Publishing(c, g, snapshot, action) =>
      var t := Publish(r, c, g, snapshot, action);
      if t != r {
        UpdateOk(r, c, t.providers[c]);
      }
    case Clearing(c, g, owner) =>
      var t := Clear(r, c, g, owner);
      if t != r {
        UpdateOk(r, c, t.providers[c]);
      }
    case Asking(instance) => ExecuteOk(r, instance, 0, Unknown, None);
    case Executing(instance, id, kind, text) => ExecuteOk(r, instance, id, kind, text);
  }

  /** In every reachable state the accessibility focus is nowhere or on a node of the current
      snapshot, if that snapshot keeps its nodes under their own ids; no two providers share a
      generation or an instance name, and a provider nobody has asked shows only the blank
      root. */
  lemma {:induction false} RunOk(states: seq<Registry>, events: seq<Event>, k: nat)
    requires IsRun(states, events) && k <= |events|
    ensures RegistryOk(states[k])
    decreases k
  {
    hide RegistryOk, Step;
    if k == 0 {
      NothingRegistered();
    } else {
      RunOk(states, events, k - 1);
      StepOk(states[k - 1], events[k - 1]);
      assert states[k - 1 + 1] == Step(states[k - 1], events[k - 1]);
    }
  }

  lemma NothingRegistered()
    ensures RegistryOk(Registry(map[], 0))
  {
  }

  // ---- Stale generations -----------------------------------------------------

  /** Whom an event addresses: the generation a publisher names, or an instance's. */
  ghost predicate Addresses(e: Event, g: nat) {
    match e
    case Registering(_, _, _) => false
    case Unregistering(_, _) => false
    case Publishing(_, generation, _, _) => generation == g
    case Clearing(_, generation, _) => generation == g
    case Asking(instance) => Names(instance, g)
    case Executing(instance, _, _, _) => Names(instance, g)
  }

  ghost predicate Names(instance: string, g: nat) { exists c :: instance == InstanceName(c, g) }

  ghost predicate Live(r: Registry, g: nat) { exists c :: c in r.providers && r.providers[c].generation == g }

  lemma HolderIsNamed(r: Registry, instance: string, g: nat)
    requires RegistryOk(r) && Names(instance, g) && Holder(r, instance).Some?
    ensures r.providers[Holder(r, instance).value].generation == g
  {
    var d := Holder(r, instance).value;
    var c :| instance == InstanceName(c, g);
    InstanceNamesDiffer(c, g, d, r.providers[d].generation);
  }

  /** An event leaves the providers of every generation but the one it addresses alone. */
  lemma TouchesOnlyItsOwn(r: Registry, e: Event, g: nat, d: string)
    requires RegistryOk(r) && Addresses(e, g) && d in r.providers && r.providers[d].generation != g
    ensures d in Step(r, e).providers && Step(r, e).providers[d] == r.providers[d]
  {
    match e
    case Asking(instance) =>
      if Holder(r, instance).Some? {
        HolderIsNamed(r, instance, g);
      }
    case Executing(instance, id, kind, text) =>
      if Holder(r, instance).Some? {
        HolderIsNamed(r, instance, g);
      }
    case Publishing(c, _, _, _) =>
    case Clearing(c, _, _) =>
    case Registering(c, _, _) =>
    case Unregistering(c, _) =>
  }

  lemma StaleDoesNothing(r: Registry, e: Event, g: nat)
    requires RegistryOk(r) && Addresses(e, g) && !Live(r, g)
    ensures Step(r, e) == r
  {
    match e
    case Asking(instance) =>
      if Holder(r, instance).Some? {
        HolderIsNamed(r, instance, g);
      }
    case Executing(instance, id, kind, text) =>
      if Holder(r, instance).Some? {
        HolderIsNamed(r, instance, g);
      }
    case Publishing(c, _, _, _) =>
    case Clearing(c, _, _) =>
    case Registering(c, _, _) =>
    case Unregistering(c, _) =>
  }

  lemma GenerationsGoOn(r: Registry, e: Event, g: nat)
    requires RegistryOk(r) && g <= r.next && !Live(r, g)
    ensures g <= Step(r, e).next && !Live(Step(r, e), g)
  {
    var t := Step(r, e);
    forall c | c in t.providers ensures t.providers[c].generation != g {
      if c in r.providers && t.providers[c].generation == r.providers[c].generation {
        assert r.providers[c].generation != g;
      }
    }
  }

  /** Once a generation has been replaced or unregistered it never comes back, and from then
      on whatever is published, cleared, asked or executed in its name changes nothing. */
  lemma {:induction false} StaleForEver(states: seq<Registry>, events: seq<Event>, i: nat, k: nat, g: nat)
    requires IsRun(states, events) && i <= k <= |events|
    requires g <= states[i].next && !Live(states[i], g)
    ensures g <= states[k].next && !Live(states[k], g)
    ensures k < |events| && Addresses(events[k], g) ==> states[k + 1] == states[k]
    decreases k
  {
    hide RegistryOk, Step, Live, Addresses;
    if i < k {
      StaleForEver(states, events, i, k - 1, g);
      RunOk(states, events, k - 1);
      GenerationsGoOn(states[k - 1], events[k - 1], g);
      assert states[k - 1 + 1] == Step(states[k - 1], events[k - 1]);
    }
    RunOk(states, events, k);
    if k < |events| && Addresses(events[k], g) {
      StaleDoesNothing(states[k], events[k], g);
    }
  }

  // ---- Whom a refusal takes out ------------------------------------------------

  /** Event j put a new provider in place for c, rather than finding it there. */
  ghost predicate Inserts(states: seq<Registry>, events: seq<Event>, j: nat, c: string)
    requires IsRun(states, events) && j < |events|
  {
    events[j].Registering? && events[j].component == c && states[j + 1] != states[j]
  }

  /** Event j is the last before k that did so, and its window has not given c up since. */
  ghost predicate LastIn(states: seq<Registry>, events: seq<Event>, j: nat, k: nat, c: string)
    requires IsRun(states, events) && k <= |events|
  {
    && j < k && Inserts(states, events, j, c)
    && forall i :: j < i < k ==> !Inserts(states, events, i, c) && events[i] != Unregistering(c, events[j].window)
  }

  /** The provider of c in t, if it has one, is the one it has in r: same window, same
      generation. */
  predicate SameAt(r: Registry, t: Registry, c: string) {
    && (c in r.providers <==> c in t.providers)
    && (c in r.providers ==>
          r.providers[c].window == t.providers[c].window && r.providers[c].generation == t.providers[c].generation)
  }

  /** What one event does to the place of c. */
  lemma StepAt(r: Registry, e: Event, c: string)
    ensures var t := Step(r, e);
            && r.next <= t.next
            && (if e.Registering? && e.component == c && t != r
                then c in t.providers && t.providers[c].window == e.window && t.providers[c].generation == t.next
                     && t.next == r.next + 1
                else if e.Unregistering? && e.component == c && c in r.providers && r.providers[c].window == e.window
                then c !in t.providers
                else SameAt(r, t, c))
  {
    match e
    case Registering(d, native, window) =>
    case Unregistering(d, window) =>
    case Publishing(d, g, snapshot, action) =>
    case Clearing(d, g, owner) =>
    case Asking(instance) =>
    case Executing(instance, id, kind, text) =>
      if Outcome(r, instance, id, kind, text).Some? {
        PerformOk(r.providers[Holder(r, instance).value].(requested := true), id, kind, text);
      }
  }

  /** A component has a provider exactly when some insertion for it was neither replaced nor
      unregistered by its own window since, and it is that insertion's. */
  ghost predicate WhoseAt(states: seq<Registry>, events: seq<Event>, k: nat, c: string)
    requires IsRun(states, events) && k <= |events|
  {
    && (c in states[k].providers <==> exists j: nat :: LastIn(states, events, j, k, c))
    && forall j: nat :: LastIn(states, events, j, k, c) ==>
         && c in states[k].providers && states[k].providers[c].window == events[j].window
         && states[k].providers[c].generation == states[j + 1].next
  }

  lemma {:induction false} Whose(states: seq<Registry>, events: seq<Event>, k: nat, c: string)
    requires IsRun(states, events) && k <= |events|
    ensures WhoseAt(states, events, k, c)
  {
    hide Step;
    if k > 0 {
      Whose(states, events, k - 1, c);
      StepAt(states[k - 1], events[k - 1], c);
      assert states[k - 1 + 1] == Step(states[k - 1], events[k - 1]);
      if Inserts(states, events, k - 1, c) {
        assert LastIn(states, events, k - 1, k, c);
      } else {
        WhoseStays(states, events, k, c);
      }
    }
  }

  lemma WhoseStays(states: seq<Registry>, events: seq<Event>, k: nat, c: string)
    requires IsRun(states, events) && 0 < k <= |events| && WhoseAt(states, events, k - 1, c)
    requires !Inserts(states, events, k - 1, c)
    ensures WhoseAt(states, events, k, c)
  {
    var e := events[k - 1];
    assert e.Registering? && e.component == c ==> states[k - 1 + 1] == states[k - 1];
    hide Step;
    assert states[k - 1 + 1] == Step(states[k - 1], e);
    StepAt(states[k - 1], e, c);
    forall j: nat | LastIn(states, events, j, k - 1, c) && e != Unregistering(c, events[j].window)
      ensures LastIn(states, events, j, k, c)
    {
    }
    forall j: nat | LastIn(states, events, j, k, c) ensures LastIn(states, events, j, k - 1, c) {
    }
  }

  lemma ClearOk(r: Registry, c: string, generation: nat, owner: nat)
    requires RegistryOk(r)
    ensures RegistryOk(Clear(r, c, generation, owner))
  {
    StepOk(r, Clearing(c, generation, owner));
  }

  // ---- The provider functions ------------------------------------------------

  class Providers {
    var providers: map<string, Provider>
    var nextGeneration: nat
    var ran: seq<Run>    // calls of action callbacks

    ghost function View(): Registry
      reads this
    {
      Registry(providers, nextGeneration)
    }

    ghost predicate Valid()
      reads this
    {
      RegistryOk(View())
    }

    constructor ()
      ensures Valid() && View() == Registry(map[], 0) && ran == []
    {
      providers, nextGeneration, ran := map[], 0, [];
    }

    /** The first locked piece of a registration. */
    method InsertProvider(c: string, native: nat, window: nat) returns (inserted: bool)
      requires Valid()
      modifies this`providers, this`nextGeneration
      ensures Valid() && View() == Register(old(View()), c, native, window)
      ensures nextGeneration == old(nextGeneration) + if inserted then 1 else 0
      ensures c in providers && (inserted ==> providers[c].generation == nextGeneration)
      ensures inserted <==>
        !(c in old(providers) && old(providers)[c].native == native && old(providers)[c].window == window)
      ensures providers - {c} == old(providers) - {c} && (!inserted ==> providers == old(providers))
      ensures inserted ==>
        && providers[c].native == native && providers[c].window == window && !providers[c].requested
        && providers[c].focused == -1 && providers[c].action == None
        && providers[c].snapshot == Snapshot(0, 0, [0], map[0 := ROOT])
    {
      hide RegistryOk, InstanceName;
      RegisterOk(View(), c, native, window);
      if c in providers && providers[c].native == native && providers[c].window == window {
        return false;
      }
      nextGeneration := nextGeneration + 1;
      providers := providers[c := Fresh(c, native, window, nextGeneration)];
      return true;
    }

    /** The second: the instance under which the callbacks are set, or nothing, where the
        source raises, if the provider has been taken out in between. */
    method InstanceOf(c: string) returns (instance: Option<string>)
      requires Valid()
      ensures instance.Some? <==> c in providers
      ensures instance.Some? ==> instance.value == InstanceName(c, providers[c].generation)
    {
      if c !in providers {
        return None;
      }
      assert ProviderOk(View(), c, providers[c]);
      return Some(providers[c].instance);
    }

    /** The pieces of a registration one after the other: `native` is what the component hands
        out, `accepted` whether its callbacks could be set; a refusal takes the new provider
        out again. */
    method RegisterProvider(c: string, native: Option<nat>, window: nat, accepted: bool) returns (ok: bool)
      requires Valid()
      modifies this`providers, this`nextGeneration
      ensures Valid()
      ensures native.None? ==> !ok && View() == old(View())
      ensures native.Some? ==>
        var r := Register(old(View()), c, native.value, window);
        && (ok <==> r == old(View()) || accepted)
        && View() == if ok then r else Unregister(r, c, window)
    {
      if native.None? {
        return false;
      }
      var inserted := InsertProvider(c, native.value, window);
      if !inserted {
        return true;
      }
      var instance := InstanceOf(c);
      if !accepted {
        UnregisterProvider(c, window);
        return false;
      }
      return true;
    }

    method UnregisterProvider(c: string, window: nat)
      requires Valid()
      modifies this`providers
      ensures Valid() && View() == Unregister(old(View()), c, window)
      ensures providers == if c in old(providers) && old(providers)[c].window == window
                           then old(providers) - {c} else old(providers)
    {
      if c in providers && providers[c].window == window {
        providers := providers - {c};
      }
    }

    /** Zero, which no provider has, until the provider has been asked for. */
    method RequestedProviderGeneration(c: string) returns (g: nat)
      requires Valid()
      ensures g == 0 <==> c !in providers || !providers[c].requested
      ensures g != 0 ==> g == providers[c].generation
    {
      if c in providers && providers[c].requested {
        assert ProviderOk(View(), c, providers[c]);
        return providers[c].generation;
      }
      return 0;
    }

    method PublishSnapshot(c: string, generation: nat, snapshot: Snapshot, action: Option<nat>)
      requires Valid()
      modifies this`providers
      ensures Valid() && View() == Publish(old(View()), c, generation, snapshot, action)
      ensures providers.Keys == old(providers).Keys && providers - {c} == old(providers) - {c}
      ensures c in providers ==>
        var p, q := old(providers)[c], providers[c];
        if p.requested && p.generation == generation
        then q.snapshot == snapshot && q.action == action && q.requested
             && (q.native, q.window, q.generation, q.instance) == (p.native, p.window, p.generation, p.instance)
             && (p.focused in snapshot.nodes || p.snapshot == snapshot ==> q.focused == p.focused)
             && (p.focused !in snapshot.nodes && p.snapshot != snapshot ==> q.focused == -1)
        else q == p
    {
      StepOk(View(), Publishing(c, generation, snapshot, action));
      hide RegistryOk;
      if c !in providers || !providers[c].requested || providers[c].generation != generation {
        return;
      }
      var p := providers[c].(action := action);
      if p.snapshot != snapshot {
        if p.focused !in snapshot.nodes {
          p := p.(focused := -1);
        }
        p := p.(snapshot := snapshot);
      }
      providers := providers[c := p];
    }

    method ClearSnapshot(c: string, generation: nat, owner: nat)
      requires Valid()
      modifies this`providers
      ensures Valid() && View() == Clear(old(View()), c, generation, owner)
      ensures providers.Keys == old(providers).Keys && providers - {c} == old(providers) - {c}
      ensures c in providers ==>
        var p, q := old(providers)[c], providers[c];
        if p.generation == generation && p.snapshot.owner == owner
        then q.snapshot == Snapshot(0, 0, [0], map[0 := ROOT]) && q.action == None && q.focused == -1
             && (q.native, q.window, q.generation, q.instance, q.requested)
                == (p.native, p.window, p.generation, p.instance, p.requested)
        else q == p
    {
      hide RegistryOk, Step;
      ClearOk(View(), c, generation, owner);
      if c !in providers || providers[c].generation != generation || providers[c].snapshot.owner != owner {
        return;
      }
      providers := providers[c := providers[c].(action := None, focused := -1, snapshot := BLANK)];
    }

    method Find(instance: string) returns (found: Option<string>)
      requires Valid()
      modifies this`providers
      ensures Valid() && found == Holder(old(View()), instance) && View() == Ask(old(View()), instance)
      ensures found.None? ==>
        providers == old(providers) && forall c :: c in providers ==> providers[c].instance != instance
      ensures found.Some? ==>
        && found.value in old(providers) && old(providers)[found.value].instance == instance
        && providers == old(providers)[found.value := old(providers)[found.value].(requested := true)]
    {
      ExecuteOk(View(), instance, 0, Unknown, None);
      var left := providers.Keys;
      while exists c :: c in left
        invariant View() == old(View()) && left <= providers.Keys
        invariant forall c :: c in providers && c !in left ==> providers[c].instance != instance
        decreases |left|
      {
        var c :| c in left;
        if providers[c].instance == instance {
          OneHolder(View(), instance, c);
          providers := providers[c := providers[c].(requested := true)];
          return Some(c);
        }
        left := left - {c};
      }
      return None;
    }

    /** Runs the callbacks after the registry is changed; fails without running any. */
    method ExecuteAction(instance: string, id: int, kind: Kind, text: Option<string>) returns (ok: bool)
      requires Valid()
      modifies this`providers, this`ran
      ensures Valid() && View() == Execute(old(View()), instance, id, kind, text)
      ensures var done := Outcome(old(View()), instance, id, kind, text);
              (ok <==> done.Some?) && ran == old(ran) + if done.Some? then done.value.1 else []
      ensures nextGeneration == old(nextGeneration) && ActedOn(old(providers), providers, instance, id, kind, ok)
      ensures (forall c :: c in old(providers) ==> old(providers)[c].instance != instance) ==> !ok && ran == old(ran)
    {
      ExecuteOk(View(), instance, id, kind, text);
      hide RegistryOk, Holder, Perform, ActedOn, GetNode;
      var found := Find(instance);
      if found.None? {
        NotActedOn(providers, instance, id, kind);
        return false;
      }
      OnlyHolder(old(View()), instance, found.value);
      var done := Act(providers[found.value], id, kind, text);
      if done.None? {
        ActedOnHolder(old(providers), providers, instance, id, kind, false, found.value);
        return false;
      }
      UpdateTwice(old(View()), found.value, providers[found.value], done.value.0);
      ghost var p := old(providers)[found.value];
      assert providers[found.value := done.value.0] == old(providers)[found.value := done.value.0];
      providers := providers[found.value := done.value.0];
      ActedOnHolder(old(providers), providers, instance, id, kind, true, found.value);
      ran := ran + done.value.1;
      return true;
    }

    /** The first locked piece of giving up the focus: where it is now. */
    method ReadFocus(instance: string) returns (focused: Option<int>)
      requires Valid()
      modifies this`providers
      ensures Valid() && View() == Ask(old(View()), instance)
      ensures var h := Holder(old(View()), instance);
              focused == if h.None? then None else Some(old(providers)[h.value].focused)
    {
      hide RegistryOk, Holder;
      var found := Find(instance);
      if found.None? {
        return None;
      }
      return Some(providers[found.value].focused);
    }

    /** The pieces of giving up the focus one after the other. */
    method ClearAccessibilityFocus(instance: string) returns (ok: bool)
      requires Valid()
      modifies this`providers, this`ran
      ensures Valid()
      ensures Holder(old(View()), instance).None? ==> !ok && View() == old(View())
      ensures Holder(old(View()), instance).Some? ==>
        var c := Holder(old(View()), instance).value;
        var p := old(providers)[c];
        && (ok <==> p.focused < 0 || (p.action.Some? && OnItsOwn(p)))
        && View() == Update(old(View()), c,
                            p.(requested := true, focused := if p.focused >= 0 && ok then -1 else p.focused))
    {
      hide RegistryOk, Outcome, Execute, GetNode;
      var focused := ReadFocus(instance);
      if focused.None? {
        return false;
      }
      if focused.value < 0 {
        return true;
      }
      ghost var c := Holder(old(View()), instance).value;
      assert Serves(View(), c, instance);
      OneHolder(View(), instance, c);
      FocusCanBeCleared(View(), instance);
      ghost var p := old(providers)[c];
      UpdateTwice(old(View()), c, p.(requested := true),
                  p.(requested := true, focused := if p.action.Some? && OnItsOwn(p) then -1 else p.focused));
      ok := ExecuteAction(instance, focused.value, ClearFocus, None);
    }
  }

  /** The node found under the focused id has that id itself. */
  predicate OnItsOwn(p: Provider) {
    var n := GetNode(p.snapshot, p.focused);
    n.Some? && n.value.id == p.focused
  }

  /** Giving up a focus that was read earlier takes it away only if it is still there, however
      it moved in between; and then it fails only for want of an action callback. */
  lemma ClearingFocus(p: Provider, read: int, text: Option<string>)
    requires read >= 0 && WellKeyed(p.snapshot) && FocusOk(p)
    ensures Perform(p, read, ClearFocus, text)
         == if p.focused == read && p.action.Some?
            then Some((p.(focused := -1), [Run(p.action.value, read, ClearFocus, [])])) else None
  {
  }

  /** The same for the registry: what giving up the focus, read just now, does. */
  lemma FocusCanBeCleared(r: Registry, instance: string)
    requires RegistryOk(r) && Holder(r, instance).Some? && r.providers[Holder(r, instance).value].focused >= 0
    ensures var c := Holder(r, instance).value;
            var p := r.providers[c];
            var can := p.action.Some? && OnItsOwn(p);
            && (WellKeyed(p.snapshot) ==> OnItsOwn(p))
            && Outcome(r, instance, p.focused, ClearFocus, None).Some? == can
            && Execute(r, instance, p.focused, ClearFocus, None)
               == Update(r, c, p.(requested := true, focused := if can then -1 else p.focused))
  {
    var c := Holder(r, instance).value;
    assert ProviderOk(r, c, r.providers[c]);
  }

  lemma {:induction false} NextGrows(states: seq<Registry>, events: seq<Event>, i: nat, j: nat)
    requires IsRun(states, events) && i <= j <= |events|
    ensures states[i].next <= states[j].next
    decreases j
  {
    hide Step;
    if i < j {
      NextGrows(states, events, i, j - 1);
      StepAt(states[j - 1], events[j - 1], []);
      assert states[j - 1 + 1] == Step(states[j - 1], events[j - 1]);
    }
  }

  /** Every provider but the one of this generation is as it was. */
  ghost predicate OthersStay(r: Registry, t: Registry, generation: nat) {
    forall d :: d in r.providers && r.providers[d].generation != generation ==>
      d in t.providers && t.providers[d] == r.providers[d]
  }

  /** A registration that inserted a provider is refused later, with whatever came between:
      it leaves every other provider alone exactly when the provider its component has by then
      was not inserted for the same window after it. */
  lemma RefusalExactly(states: seq<Registry>, events: seq<Event>, i: nat, k: nat, c: string)
    requires IsRun(states, events) && i < k < |events| && Inserts(states, events, i, c)
    requires events[k] == Unregistering(c, events[i].window)
    ensures OthersStay(states[k], states[k + 1], states[i + 1].next)
        <==> !exists j: nat :: i < j && LastIn(states, events, j, k, c) && events[j].window == events[i].window
  {
    Whose(states, events, k, c);
    var w := events[i].window;
    assert states[k + 1] == Unregister(states[k], c, w);
    if j: nat :| LastIn(states, events, j, k, c) {
      if i < j {
        InsertedLater(states, events, i, j, c);
      }
    }
  }

  lemma InsertedLater(states: seq<Registry>, events: seq<Event>, i: nat, j: nat, c: string)
    requires IsRun(states, events) && i < j < |events| && Inserts(states, events, j, c)
    ensures states[i + 1].next < states[j + 1].next
  {
    hide Step;
    NextGrows(states, events, i + 1, j);
    StepAt(states[j], events[j], c);
    assert states[j + 1] == Step(states[j], events[j]);
  }

  /** A refusal takes out whatever provider the component has for that window by then: here a
      second thread's, whose own registration succeeded. */
  lemma RefusalTakesOutAnother()
    ensures exists states: seq<Registry>, events: seq<Event>, c: string, window ::
      && IsRun(states, events) && |events| == 3
      && events[0] == Registering(c, 1, window) && events[1] == Registering(c, 2, window)
      && c in states[2].providers && states[2].providers[c].native == 2
      && events[2] == Unregistering(c, window) && c !in states[3].providers
  {
    var c: string, window := [], 7;
    var events := [Registering(c, 1, window), Registering(c, 2, window), Unregistering(c, window)];
    var a := Registry(map[], 0);
    var b := Step(a, events[0]);
    var d := Step(b, events[1]);
    var states := [a, b, d, Step(d, events[2])];
    assert IsRun(states, events);
    assert states[2].providers[c].native == 2 && c !in states[3].providers;
  }

  /** The switch over the action types, on the provider found. */
  method Act(p: Provider, id: int, kind: Kind, text: Option<string>) returns (done: Option<(Provider, seq<Run>)>)
    ensures done == Perform(p, id, kind, text)
    ensures done.Some? <==>
      && GetNode(p.snapshot, id).Some? && p.action.Some?
      && var n := GetNode(p.snapshot, id).value;
         && (kind.Click? ==> n.enabled && n.clickable)
         && (kind.SetText? ==> n.enabled && n.editable && text.Some?)
         && (kind.ClearFocus? ==> p.focused == n.id)
         && (kind.ScrollForward? || kind.ScrollBackward? ==> n.scrollable)
         && !kind.Unknown?
    ensures done.Some? ==>
      var n := GetNode(p.snapshot, id).value;
      var (q, runs) := done.value;
      && q == p.(focused := q.focused) && runs != []
      && (kind.GainFocus? ==> q.focused == n.id) && (kind.ClearFocus? ==> q.focused == -1)
      && (!kind.GainFocus? && !kind.ClearFocus? ==> q.focused == p.focused)
      && runs[|runs| - 1] == Run(p.action.value, n.id, kind, if kind.SetText? then text.value else "")
      && (forall k :: 0 <= k < |runs| - 1 ==> runs[k] == Run(p.action.value, p.focused, ClearFocus, ""))
      && |runs| == if kind.GainFocus? && p.focused != n.id && p.focused >= 0 then 2 else 1
  {
    var node := GetNode(p.snapshot, id);
    if node.None? || p.action.None? || !Allowed(p, node.value, kind, text) {
      return None;
    }
    var to, callback := node.value.id, p.action.value;
    match kind {
      case GainFocus =>
        var runs := [];
        var q := p;
        if p.focused != to {
          if p.focused >= 0 {
            runs := [Run(callback, p.focused, ClearFocus, [])];
          }
          q := p.(focused := to);
        }
        return Some((q, runs + [Run(callback, to, GainFocus, [])]));
      case ClearFocus => return Some((p.(focused := -1), [Run(callback, to, ClearFocus, [])]));
      case SetText => return Some((p, [Run(callback, to, SetText, text.value)]));
      case _ => return Some((p, [Run(callback, to, kind, [])]));
    }
  }

  lemma OnlyHolder(r: Registry, instance: string, h: string)
    requires RegistryOk(r) && Serves(r, h, instance)
    ensures forall c | c in r.providers && r.providers[c].instance == instance :: c == h
  {
    hide RegistryOk;
    OneHolder(r, instance, h);
    forall c | c in r.providers && r.providers[c].instance == instance ensures c == h {
      OneHolder(r, instance, c);
    }
  }

  /** What an action on this instance leaves: every other provider as it was, and of its own
      only the focus changes, when the action is one on the focus and does not fail. */
  predicate ActedOn(before: map<string, Provider>, after: map<string, Provider>, instance: string, id: int, kind: Kind,
                    ok: bool)
  {
    && after.Keys == before.Keys
    && (forall c :: c in before && before[c].instance != instance ==> after[c] == before[c])
    && forall c :: c in before && before[c].instance == instance ==>
         var p, q := before[c], after[c];
         && (ok ==> GetNode(p.snapshot, id).Some? && p.action.Some?)
         && q == p.(requested := true, focused := if !ok then p.focused
                                                  else if kind.GainFocus? then GetNode(p.snapshot, id).value.id
                                                  else if kind.ClearFocus? then -1 else p.focused)
  }

  lemma NotActedOn(m: map<string, Provider>, instance: string, id: int, kind: Kind)
    requires forall c :: c in m ==> m[c].instance != instance
    ensures ActedOn(m, m, instance, id, kind, false)
  {
  }

  lemma ActedOnHolder(before: map<string, Provider>, after: map<string, Provider>, instance: string, id: int,
                      kind: Kind, ok: bool, h: string)
    requires h in before && before[h].instance == instance
    requires forall c | c in before && before[c].instance == instance :: c == h
    requires ok ==> GetNode(before[h].snapshot, id).Some? && before[h].action.Some?
    requires var f := if !ok then before[h].focused
                      else if kind.GainFocus? then GetNode(before[h].snapshot, id).value.id
                      else if kind.ClearFocus? then -1 else before[h].focused;
             after == before[h := before[h].(requested := true, focused := f)]
    ensures ActedOn(before, after, instance, id, kind, ok)
  {
  }

  lemma UpdateTwice(r: Registry, c: string, p: Provider, q: Provider)
    ensures Update(Update(r, c, p), c, q) == Update(r, c, q)
  {
    assert r.providers[c := p][c := q] == r.providers[c := q];
  }

  lemma OneHolder(r: Registry, instance: string, c: string)
    requires RegistryOk(r) && Serves(r, c, instance)
    ensures Holder(r, instance) == Some(c)
  {
    var d := Holder(r, instance).value;
    InstanceNamesDiffer(c, r.providers[c].generation, d, r.providers[d].generation);
  }
}
