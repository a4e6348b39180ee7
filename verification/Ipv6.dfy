/**
 The IPv6 recogniser of src/validate_ipv6_address.rs and the grammar it accepts.
 */
module Ipv6 {
  import opened Errors
  import opened Sequences
  import opened CharacterClasses
  import opened Decimal
  import Ipv4
  import Ascii

  datatype Shared = Shared(
    address: string,
    numGroups: nat,
    numDigits: nat,
    doubleColonEncountered: bool,
    potentialIpv4Start: nat)

  datatype State =
    | NoGroupsYet(shared: Shared)
    | ColonButNoGroupsYet(shared: Shared)
    | AfterDoubleColon(shared: Shared)
    | InGroupNotIpv4(shared: Shared)
    | InGroupCouldBeIpv4(shared: Shared)
    | InGroupIpv4(shared: Shared)
    | ColonAfterGroup(shared: Shared)

  /** One step either continues, stops with an error, or leaves the rest to the IPv4 recogniser. */
  datatype Step = Go(state: State) | Fail(error: Error) | Ipv4Trailer(shared: Shared)

  const ILLEGAL: Step := Fail(IllegalCharacter(InIpv6Address))

  function New(address: string): State {
    NoGroupsYet(Shared(address, 0, 0, false, 0))
  }

  function Next(st: State, i: nat, c: char): Step {
    match st
    case NoGroupsYet(sh) => NextNoGroupsYet(sh, i, c)
    case ColonButNoGroupsYet(sh) => NextColonButNoGroupsYet(sh, c)
    case AfterDoubleColon(sh) => NextAfterDoubleColon(sh, i, c)
    case InGroupNotIpv4(sh) => NextInGroupNotIpv4(sh, c)
    case InGroupCouldBeIpv4(sh) => NextInGroupCouldBeIpv4(sh, c)
    case InGroupIpv4(sh) => Go(st)
    case ColonAfterGroup(sh) => NextColonAfterGroup(sh, i, c)
  }

  function NextNoGroupsYet(sh: Shared, i: nat, c: char): Step {
    if c == ':' then Go(ColonButNoGroupsYet(sh))
    else if c in DIGIT then Go(InGroupCouldBeIpv4(sh.(potentialIpv4Start := i, numDigits := 1)))
    else if c in HEXDIG then Go(InGroupNotIpv4(sh.(numDigits := 1)))
    else ILLEGAL
  }

  function NextColonButNoGroupsYet(sh: Shared, c: char): Step {
    if c == ':' then Go(AfterDoubleColon(sh.(doubleColonEncountered := true))) else ILLEGAL
  }

  function NextAfterDoubleColon(sh: Shared, i: nat, c: char): Step {
    var sh' := sh.(numDigits := sh.numDigits + 1);
    if sh'.numDigits > 4 then Fail(TooManyDigits)
    else if c in DIGIT then Go(InGroupCouldBeIpv4(sh'.(potentialIpv4Start := i)))
    else if c in HEXDIG then Go(InGroupNotIpv4(sh'))
    else ILLEGAL
  }

  function NextInGroupNotIpv4(sh: Shared, c: char): Step {
    if c == ':' then Go(ColonAfterGroup(sh.(numDigits := 0, numGroups := sh.numGroups + 1)))
    else if c in HEXDIG then
      var sh' := sh.(numDigits := sh.numDigits + 1);
      if sh'.numDigits > 4 then Fail(TooManyDigits) else Go(InGroupNotIpv4(sh'))
    else ILLEGAL
  }

  function NextInGroupCouldBeIpv4(sh: Shared, c: char): Step {
    if c == ':' then Go(ColonAfterGroup(sh.(numDigits := 0, numGroups := sh.numGroups + 1)))
    else if c == '.' then Ipv4Trailer(sh)
    else
      var sh' := sh.(numDigits := sh.numDigits + 1);
      if sh'.numDigits > 4 then Fail(TooManyDigits)
      else if c in DIGIT then Go(InGroupCouldBeIpv4(sh'))
      else if c in HEXDIG then Go(InGroupNotIpv4(sh'))
      else ILLEGAL
  }

  function NextColonAfterGroup(sh: Shared, i: nat, c: char): Step {
    if c == ':' then
      if sh.doubleColonEncountered then Fail(TooManyDoubleColons)
      else Go(AfterDoubleColon(sh.(doubleColonEncountered := true)))
    else if c in DIGIT then
      Go(InGroupCouldBeIpv4(sh.(potentialIpv4Start := i, numDigits := sh.numDigits + 1)))
    else if c in HEXDIG then Go(InGroupNotIpv4(sh.(numDigits := sh.numDigits + 1)))
    else ILLEGAL
  }

  function CheckGroups(doubleColonEncountered: bool, numGroups: nat): Result<()> {
    if doubleColonEncountered && numGroups <= 7 then Ok(())
    else if !doubleColonEncountered && numGroups == 8 then Ok(())
    else if !doubleColonEncountered && numGroups < 8 then Err(TooFewAddressParts)
    else Err(TooManyAddressParts)
  }

  function Finalize(st: State): Result<()>
    requires st.shared.potentialIpv4Start <= |st.shared.address|
  {
    var sh := st.shared;
    match st
    case ColonButNoGroupsYet(_) => Err(TruncatedHost)
    case ColonAfterGroup(_) => Err(TruncatedHost)
    case InGroupNotIpv4(_) => CheckGroups(sh.doubleColonEncountered, sh.numGroups + 1)
    case InGroupCouldBeIpv4(_) => CheckGroups(sh.doubleColonEncountered, sh.numGroups + 1)
    case InGroupIpv4(_) =>
      var _ :- Ipv4.Validate(sh.address[sh.potentialIpv4Start..]);
      CheckGroups(sh.doubleColonEncountered, sh.numGroups + 2)
    case AfterDoubleColon(_) => CheckGroups(sh.doubleColonEncountered, sh.numGroups)
    case NoGroupsYet(_) => CheckGroups(sh.doubleColonEncountered, sh.numGroups)
  }

  /** The fold over `address[i..]`; the machine never moves its IPv4 start past what it has read. */
  function Run(st: State, i: nat): (r: Step)
    requires i <= |st.shared.address| && st.shared.potentialIpv4Start <= i
    ensures r.Go? ==> r.state.shared.address == st.shared.address
    ensures r.Go? ==> r.state.shared.potentialIpv4Start <= |st.shared.address|
    ensures r.Ipv4Trailer? ==> r.shared.address == st.shared.address
    ensures r.Ipv4Trailer? ==> r.shared.potentialIpv4Start <= |st.shared.address|
    decreases |st.shared.address| - i
  {
    if i == |st.shared.address| then Go(st)
    else match Next(st, i, st.shared.address[i])
      case Go(st') => Run(st', i + 1)
      case stop => stop
  }

  function Conclude(r: Step): Result<()>
    requires r.Go? ==> r.state.shared.potentialIpv4Start <= |r.state.shared.address|
    requires r.Ipv4Trailer? ==> r.shared.potentialIpv4Start <= |r.shared.address|
  {
    match r
    case Go(st) => Finalize(st)
    case Ipv4Trailer(sh) => Finalize(InGroupIpv4(sh))
    case Fail(e) => Err(e)
  }

  function Validate(address: string): Result<()> {
    Conclude(Run(New(address), 0))
  }

  // ---- Grammar ----------------------------------------------------------------------------------

  predicate AllHex(s: string) {
    forall i | 0 <= i < |s| :: s[i] in HEXDIG
  }

  /** h16: one to four hexadecimal digits. */
  predicate Group(s: string) {
    1 <= |s| <= 4 && AllHex(s)
  }

  /** An IPv4 address in place of the last two groups; its first octet has at most four digits. */
  ghost predicate Ipv4Tail(s: string) {
    Ipv4.Address(s) && Find(s, {'.'}) <= 4
  }

  ghost predicate AllGroups(parts: seq<string>) {
    forall k | 0 <= k < |parts| :: Group(parts[k])
  }

  /**
   The number of 16-bit groups spelled by `t`: colon-separated groups, of which the last may be an
   IPv4 address worth two if `ipv4` says so. `None` if `t` is not of that form.
   */
  ghost function Groups(t: string, ipv4: bool): Option<nat> {
    if t == [] then Some(0)
    else
      var parts := Split(t, ':');
      var last := parts[|parts| - 1];
      if !AllGroups(parts[..|parts| - 1]) then None
      else if Group(last) then Some(|parts|)
      else if ipv4 && Ipv4Tail(last) then Some(|parts| + 1)
      else None
  }

  ghost predicate ElidedAt(n: nat, t: string, j: nat) {
    && j + 1 < |t| && t[j] == ':' && t[j + 1] == ':'
    && Groups(t[..j], false).Some? && Groups(t[j + 2..], true).Some?
    && n + Groups(t[..j], false).value + Groups(t[j + 2..], true).value <= 7
  }

  ghost predicate Elided(n: nat, t: string) {
    exists j: nat :: ElidedAt(n, t, j)
  }

  /**
   `t` completes an address of which `n` groups have been read: with a `::` already read, at most
   seven groups in all; otherwise eight groups, or a `::` in `t` and at most seven groups.
   */
  ghost predicate Completes(n: nat, elided: bool, t: string) {
    || (Groups(t, true).Some? && CheckGroups(elided, n + Groups(t, true).value).Ok?)
    || (!elided && Elided(n, t))
  }

  /** The addresses `validate_ipv6_address` accepts. */
  ghost predicate Address(s: string) {
    Completes(0, false, s)
  }

  // ---- Splitting off one group ------------------------------------------------------------------

  lemma GroupsSingle(a: string, ipv4: bool)
    requires a != [] && Avoids(a, {':'})
    ensures Groups(a, ipv4) ==
            if Group(a) then Some(1) else if ipv4 && Ipv4Tail(a) then Some(2) else None
  {
    SplitPeel(a, [], ':');
  }

  lemma GroupsPeel(a: string, b: string, ipv4: bool)
    requires Avoids(a, {':'})
    ensures Groups(a + ":" + b, ipv4) ==
            if Group(a) && b != [] && Groups(b, ipv4).Some? then Some(1 + Groups(b, ipv4).value) else None
  {
    SplitPeel(a, b, ':');
    var t, parts := a + ":" + b, Split(b, ':');
    var all := [a] + parts;
    assert Split(t, ':') == all;
    assert all[..|all| - 1] == [a] + parts[..|parts| - 1];
    AllGroupsCons(a, parts[..|parts| - 1]);
    if b == [] {
      SplitPeel([], [], ':');
      assert parts == [[]];
      Ipv4NotEmpty();
    }
  }

  lemma AllGroupsCons(a: string, parts: seq<string>)
    ensures AllGroups([a] + parts) <==> Group(a) && AllGroups(parts)
  {
    var all := [a] + parts;
    assert all[0] == a;
    assert forall k | 0 <= k < |parts| :: parts[k] == all[k + 1];
  }

  lemma Ipv4NotEmpty()
    ensures !Ipv4.Address([])
  {
    Ipv4.ValidateAccepts([]);
  }

  /** A `::` past the first group and its colon is a `::` of the rest, unless the rest starts with it. */
  lemma ElidedAfter(n: nat, a: string, b: string, k: nat)
    requires Avoids(a, {':'}) && Group(a)
    ensures ElidedAt(n, a + ":" + b, |a| + 1 + k) <==> k > 0 && ElidedAt(n + 1, b, k)
  {
    hide Groups, Group;
    var t := a + ":" + b;
    var j := |a| + 1 + k;
    if k + 1 < |b| {
      assert t[..j] == a + ":" + b[..k];
      assert t[j + 2..] == b[k + 2..];
      assert t[j] == b[k] && t[j + 1] == b[k + 1];
      GroupsPeel(a, b[..k], false);
    }
  }

  lemma NotElidedLater(n: nat, b: string, k: nat)
    requires b != [] && b[0] == ':' && k > 0
    ensures !ElidedAt(n, b, k)
  {
    if k < |b| {
      assert b[..k] == [] + ":" + b[1..k];
      GroupsPeel([], b[1..k], false);
    }
  }

  lemma ElidedPeel(n: nat, a: string, b: string)
    requires Avoids(a, {':'}) && Group(a)
    ensures b == [] ==> !Elided(n, a + ":" + b)
    ensures b != [] && b[0] == ':' ==>
              (Elided(n, a + ":" + b) <==> Completes(n + 1, true, b[1..]))
    ensures b != [] && b[0] != ':' ==>
              (Elided(n, a + ":" + b) <==> Elided(n + 1, b))
  {
    hide Groups;
    var t := a + ":" + b;
    forall j: nat
      ensures ElidedAt(n, t, j) ==> j >= |a|
      ensures j > |a| ==> (ElidedAt(n, t, j) <==> j > |a| + 1 && ElidedAt(n + 1, b, j - |a| - 1))
      ensures j > |a| && b != [] && b[0] == ':' ==> !ElidedAt(n, t, j)
    {
      if j > |a| {
        ElidedAfter(n, a, b, j - |a| - 1);
        if j > |a| + 1 && b != [] && b[0] == ':' {
          NotElidedLater(n + 1, b, j - |a| - 1);
        }
      } else if j < |a| {
        assert t[j] == a[j];
      }
    }
    if b != [] && b[0] == ':' {
      assert t[..|a|] == a && t[|a| + 2..] == b[1..] && t[|a| + 1] == b[0];
      GroupsSingle(a, false);
      assert ElidedAt(n, t, |a|) <==> Completes(n + 1, true, b[1..]);
    } else if b != [] {
      assert t[|a| + 1] == b[0];
      var m := n + 1;
      forall k: nat | ElidedAt(m, b, k)
        ensures ElidedAt(n, t, |a| + 1 + k)
      {
        ElidedAfter(n, a, b, k);
      }
    }
  }

  /** What follows a group and its colon decides whether the whole completes an address. */
  lemma CompletesPeel(n: nat, elided: bool, a: string, b: string)
    requires Avoids(a, {':'}) && Group(a)
    ensures Completes(n, elided, a + ":" + b) <==>
            b != [] && if b[0] == ':' then !elided && Completes(n + 1, true, b[1..]) else Completes(n + 1, elided, b)
  {
    hide Groups, Elided;
    GroupsPeel(a, b, true);
    ElidedPeel(n, a, b);
    if b != [] && b[0] == ':' {
      assert b == [] + ":" + b[1..];
      GroupsPeel([], b[1..], true);
    }
  }

  lemma CompletesSingle(n: nat, elided: bool, a: string)
    requires a != [] && Avoids(a, {':'})
    ensures Completes(n, elided, a) <==>
            || (Group(a) && CheckGroups(elided, n + 1).Ok?)
            || (!Group(a) && Ipv4Tail(a) && CheckGroups(elided, n + 2).Ok?)
  {
    GroupsSingle(a, true);
  }

  lemma CompletesBadGroup(n: nat, elided: bool, a: string, b: string)
    requires a != [] && Avoids(a, {':'}) && !Group(a)
    ensures !Completes(n, elided, a + ":" + b)
  {
    var t := a + ":" + b;
    GroupsPeel(a, b, true);
    GroupsSingle(a, false);
    forall j: nat
      ensures !ElidedAt(n, t, j)
    {
      if j < |a| {
        assert t[j] == a[j];
      } else if j == |a| {
        assert t[..j] == a;
      } else if j < |t| {
        assert t[..j] == a + ":" + b[..j - |a| - 1];
        GroupsPeel(a, b[..j - |a| - 1], false);
      }
    }
  }

  lemma CompletesColon(n: nat, elided: bool, b: string)
    ensures Completes(n, elided, ":" + b) <==>
            !elided && b != [] && b[0] == ':' && Completes(n, true, b[1..])
  {
    var t := ":" + b;
    assert t == [] + ":" + b;
    GroupsPeel([], b, true);
    forall j: nat
      ensures j > 0 ==> !ElidedAt(n, t, j)
    {
      if 0 < j < |t| {
        assert t[..j] == [] + ":" + b[..j - 1];
        GroupsPeel([], b[..j - 1], false);
      }
    }
    if b != [] {
      assert t[..0] == [] && t[2..] == b[1..] && t[1] == b[0];
      assert ElidedAt(n, t, 0) <==> b[0] == ':' && Completes(n, true, b[1..]);
    }
  }

  /** Cuts `t` at its first colon. */
  lemma CutGroup(t: string) returns (a: string, b: string)
    ensures Avoids(a, {':'}) && a <= t
    ensures t == a || t == a + ":" + b
    ensures forall i | 0 <= i < |t| && Avoids(t[..i], {':'}) :: i <= |a|
  {
    var k := Find(t, {':'});
    a := t[..k];
    b := if k < |t| then t[k + 1..] else [];
    assert k < |t| ==> t[k] == ':';
  }

  /** If the text in progress is no start of a group or of an IPv4 tail, nothing completes it. */
  lemma NotCompleted(n: nat, elided: bool, t: string, i: nat)
    requires i < |t| && t[i] != ':' && AllHex(t[..i])
    requires !(t[i] in HEXDIG && i < 4)
    requires t[i] == '.' ==> !AllDigits(t[..i]) || i == 0
    ensures !Completes(n, elided, t)
  {
    var a, b := CutGroup(t);
    assert |a| > i && a[i] == t[i];
    assert a[..i] == t[..i];
    assert !Group(a);
    if t == a {
      CompletesSingle(n, elided, t);
      NotIpv4Tail(t, i);
    } else {
      CompletesBadGroup(n, elided, a, b);
    }
  }

  lemma NotIpv4Tail(t: string, i: nat)
    requires i < |t| && AllHex(t[..i])
    requires !(t[i] in HEXDIG && i < 4)
    requires t[i] == '.' ==> !AllDigits(t[..i]) || i == 0
    ensures !Ipv4Tail(t)
  {
    assert forall k | 0 <= k < i :: t[..i][k] == t[k];
    if i == 0 {
      assert t == [] + [t[0]] + t[1..];
      Ipv4.OctetsPeel([], t[1..], 4);
    }
    if Ipv4Tail(t) {
      Ipv4.OctetsCharacters(t, 4);
    }
  }

  // ---- The first fault from the left ------------------------------------------------------------

  /** What the characters up to the next colon amount to. */
  datatype Piece = Whole | Dotted | Faulty(error: Error)

  /**
   A piece is a group, or decimal digits that run into a dot, or faulty: a fifth hexadecimal digit is
   one too many, and so is any fifth character after four decimal digits; others have no place in a group.
   */
  function ReadPiece(p: string): Piece {
    var k := Span(p, HEXDIG);
    if 1 <= k <= 4 && k == |p| then Whole
    else if 1 <= k <= 4 && AllDigits(p[..k]) && p[k] == '.' then Dotted
    else if k >= 5 || (k == 4 && AllDigits(p[..k])) then Faulty(TooManyDigits)
    else Faulty(IllegalCharacter(InIpv6Address))
  }

  function CheckTrailer(n: nat, elided: bool, t: string): Result<()> {
    var _ :- Ipv4.Validate(t);
    CheckGroups(elided, n + 2)
  }

  /** The result for `t`, which starts where a group may start, after `n` groups. */
  function CheckFrom(n: nat, elided: bool, t: string): Result<()>
    requires t != [] && t[0] != ':'
    decreases |t|, 0
  {
    var k := Find(t, {':'});
    match ReadPiece(t[..k])
    case Faulty(e) => Err(e)
    case Dotted => CheckTrailer(n, elided, t)
    case Whole =>
      if k == |t| then CheckGroups(elided, n + 1)
      else CheckAfterColon(n + 1, elided, t[k + 1..])
  }

  function CheckAfterColon(n: nat, elided: bool, t: string): Result<()>
    decreases |t|, 1
  {
    if t == [] then Err(TruncatedHost)
    else if t[0] != ':' then CheckFrom(n, elided, t)
    else if elided then Err(TooManyDoubleColons)
    else CheckAfterDoubleColon(n, t[1..])
  }

  function CheckAfterDoubleColon(n: nat, t: string): Result<()>
    decreases |t|, 1
  {
    if t == [] then CheckGroups(true, n)
    else if t[0] == ':' then Err(IllegalCharacter(InIpv6Address))
    else CheckFrom(n, true, t)
  }

  /** The result for a whole address. */
  function CheckAddress(s: string): Result<()> {
    if s == [] then CheckGroups(false, 0)
    else if s[0] != ':' then CheckFrom(0, false, s)
    else if |s| == 1 then Err(TruncatedHost)
    else if s[1] != ':' then Err(IllegalCharacter(InIpv6Address))
    else CheckAfterDoubleColon(0, s[2..])
  }

  /** The result for `t` in terms of a character `t[j]`, all before it being of one group. */
  lemma CheckFromAt(n: nat, elided: bool, t: string, j: nat)
    requires 1 <= j <= 4 && j <= |t| && AllHex(t[..j])
    ensures j == |t| ==> CheckFrom(n, elided, t) == CheckGroups(elided, n + 1)
    ensures j < |t| && t[j] == ':' ==> CheckFrom(n, elided, t) == CheckAfterColon(n + 1, elided, t[j + 1..])
    ensures j < |t| && t[j] != ':' && !(t[j] in HEXDIG && j < 4) ==>
              CheckFrom(n, elided, t) ==
              if AllDigits(t[..j]) && t[j] == '.' then CheckTrailer(n, elided, t)
              else if j == 4 && (AllDigits(t[..j]) || t[j] in HEXDIG) then Err(TooManyDigits)
              else Err(IllegalCharacter(InIpv6Address))
  {
    hide CheckGroups, CheckAfterColon, CheckTrailer, Find;
    var k := Find(t, {':'});
    assert forall i | 0 <= i < j :: t[..j][i] == t[i];
    assert t[0] in HEXDIG;
    var p := t[..k];
    assert p[..j] == t[..j];
    ReadPieceAt(p, j);
  }

  lemma ReadPieceAt(p: string, j: nat)
    requires 1 <= j <= 4 && j <= |p| && AllHex(p[..j])
    ensures j == |p| ==> ReadPiece(p) == Whole
    ensures j < |p| && !(p[j] in HEXDIG && j < 4) ==>
              ReadPiece(p) ==
              if AllDigits(p[..j]) && p[j] == '.' then Dotted
              else if j == 4 && (AllDigits(p[..j]) || p[j] in HEXDIG) then Faulty(TooManyDigits)
              else Faulty(IllegalCharacter(InIpv6Address))
  {
    assert forall i | 0 <= i < j :: p[..j][i] == p[i];
  }

  lemma CheckFromBad(n: nat, elided: bool, t: string)
    requires t != [] && t[0] != ':' && t[0] !in HEXDIG
    ensures CheckFrom(n, elided, t) == Err(IllegalCharacter(InIpv6Address))
  {
    var p := t[..Find(t, {':'})];
    assert p[0] == t[0];
    assert Span(p, HEXDIG) == 0;
  }

  // ---- The machine finds the first fault --------------------------------------------------------

  ghost function ResultOf(st: State, i: nat): Result<()>
    requires i <= |st.shared.address| && st.shared.potentialIpv4Start <= i
  {
    Conclude(Run(st, i))
  }

  lemma ResultNext(st: State, i: nat)
    requires i < |st.shared.address| && st.shared.potentialIpv4Start <= i
    ensures var sh, step := st.shared, Next(st, i, st.shared.address[i]);
            && (step.Go? ==>
                  && step.state.shared.address == sh.address
                  && step.state.shared.potentialIpv4Start <= i + 1
                  && ResultOf(st, i) == ResultOf(step.state, i + 1))
            && (step.Ipv4Trailer? ==> step.shared == sh && ResultOf(st, i) == Finalize(InGroupIpv4(sh)))
            && (step.Fail? ==> ResultOf(st, i) == Err(step.error))
  {
  }

  lemma ResultAtEnd(st: State)
    requires st.shared.potentialIpv4Start <= |st.shared.address|
    ensures ResultOf(st, |st.shared.address|) == Finalize(st)
  {
  }

  /** The machine is `i - g` characters into a group that starts at `g`. */
  ghost predicate InGroup(st: State, g: nat, i: nat) {
    var sh := st.shared;
    && (st.InGroupNotIpv4? || st.InGroupCouldBeIpv4?)
    && g < i <= |sh.address|
    && sh.potentialIpv4Start <= i
    && sh.numDigits == i - g <= 4
    && AllHex(sh.address[g..i])
    && (st.InGroupCouldBeIpv4? ==> sh.potentialIpv4Start == g)
    && (st.InGroupCouldBeIpv4? <==> AllDigits(sh.address[g..i]))
  }

  /** Another character of the group either extends it, starts an IPv4 tail, or has no place there. */
  lemma NextInGroup(st: State, g: nat, i: nat)
    requires InGroup(st, g, i) && i < |st.shared.address| && st.shared.address[i] != ':'
    ensures var sh, c := st.shared, st.shared.address[i];
            match Next(st, i, c)
            case Go(st') =>
              && InGroup(st', g, i + 1)
              && st'.shared.address == sh.address
              && st'.shared.numGroups == sh.numGroups
              && st'.shared.doubleColonEncountered == sh.doubleColonEncountered
            case Ipv4Trailer(sh') => sh' == sh && c == '.' && st.InGroupCouldBeIpv4?
            case Fail(e) =>
              e == if i - g == 4 && (st.InGroupCouldBeIpv4? || c in HEXDIG) then TooManyDigits
                   else IllegalCharacter(InIpv6Address)
    ensures Next(st, i, st.shared.address[i]).Go? <==> st.shared.address[i] in HEXDIG && i - g < 4
    ensures Next(st, i, st.shared.address[i]).Ipv4Trailer? <==>
            st.InGroupCouldBeIpv4? && st.shared.address[i] == '.'
  {
    var address, c := st.shared.address, st.shared.address[i];
    var a := address[g..i];
    assert address[g..i + 1] == a + [c];
    assert forall k | 0 <= k < |a| :: (a + [c])[k] == a[k];
    assert AllDigits(a + [c]) ==> (a + [c])[|a|] in DIGIT;
  }

  lemma NextColon(st: State, g: nat, i: nat)
    requires InGroup(st, g, i) && i < |st.shared.address|
    ensures Next(st, i, ':') ==
            Go(ColonAfterGroup(st.shared.(numGroups := st.shared.numGroups + 1, numDigits := 0)))
  {
  }

  lemma {:induction false} ResultInGroup(st: State, g: nat, i: nat)
    requires InGroup(st, g, i)
    ensures ResultOf(st, i) ==
            CheckFrom(st.shared.numGroups, st.shared.doubleColonEncountered, st.shared.address[g..])
    decreases |st.shared.address| - i, 0
  {
    hide Ipv4.Validate, CheckGroups, CheckFrom, CheckAfterColon, Next, AllHex, AllDigits, Run;
    var sh := st.shared;
    var t := sh.address[g..];
    assert sh.address[g..i] == t[..i - g];
    CheckFromAt(sh.numGroups, sh.doubleColonEncountered, t, i - g);
    if i == |sh.address| {
      ResultAtEnd(st);
    } else {
      var c := sh.address[i];
      ResultNext(st, i);
      if c == ':' {
        DropDrop(sh.address, g, i - g + 1);
        NextColon(st, g, i);
        ResultAfterColon(Next(st, i, c).state, i + 1);
      } else {
        NextInGroup(st, g, i);
        if Next(st, i, c).Go? {
          ResultInGroup(Next(st, i, c).state, g, i + 1);
        }
      }
    }
  }

  lemma {:induction false} ResultAtStart(st: State, i: nat)
    requires st.NoGroupsYet? || st.AfterDoubleColon? || st.ColonAfterGroup?
    requires i < |st.shared.address| && st.shared.potentialIpv4Start <= i && st.shared.numDigits == 0
    requires st.shared.address[i] != ':'
    ensures ResultOf(st, i) ==
            CheckFrom(st.shared.numGroups, st.shared.doubleColonEncountered, st.shared.address[i..])
    decreases |st.shared.address| - i, 1
  {
    hide Ipv4.Validate, CheckGroups, CheckFrom, Finalize;
    var sh := st.shared;
    var t := sh.address[i..];
    if t[0] in HEXDIG {
      var one := sh.address[i..i + 1];
      assert one == [t[0]] && one[0] == t[0];
      ResultInGroup(Next(st, i, t[0]).state, i, i + 1);
    } else {
      CheckFromBad(sh.numGroups, sh.doubleColonEncountered, t);
    }
  }

  lemma {:induction false} ResultAfterColon(st: State, i: nat)
    requires st.ColonAfterGroup? && st.shared.numDigits == 0
    requires i <= |st.shared.address| && st.shared.potentialIpv4Start <= i
    ensures ResultOf(st, i) ==
            CheckAfterColon(st.shared.numGroups, st.shared.doubleColonEncountered, st.shared.address[i..])
    decreases |st.shared.address| - i, 2
  {
    hide Ipv4.Validate, CheckGroups, CheckFrom, CheckAfterDoubleColon;
    var sh := st.shared;
    if i < |sh.address| {
      if sh.address[i] != ':' {
        ResultAtStart(st, i);
      } else if !sh.doubleColonEncountered {
        DropDrop(sh.address, i, 1);
        ResultAfterDoubleColon(Next(st, i, ':').state, i + 1);
      }
    }
  }

  lemma {:induction false} ResultAfterDoubleColon(st: State, i: nat)
    requires st.AfterDoubleColon? && st.shared.numDigits == 0 && st.shared.doubleColonEncountered
    requires i <= |st.shared.address| && st.shared.potentialIpv4Start <= i
    ensures ResultOf(st, i) == CheckAfterDoubleColon(st.shared.numGroups, st.shared.address[i..])
    decreases |st.shared.address| - i, 2
  {
    hide Ipv4.Validate, CheckGroups, CheckFrom;
    var sh := st.shared;
    if i < |sh.address| && sh.address[i] != ':' {
      ResultAtStart(st, i);
    }
  }

  /** The machine's result, errors included: the first fault from the left, or the number of groups. */
  lemma ValidateResult(s: string)
    ensures Validate(s) == CheckAddress(s)
  {
    hide Ipv4.Validate, CheckGroups, CheckFrom, CheckAfterDoubleColon;
    var st := New(s);
    Empty(s);
    if s != [] {
      if s[0] != ':' {
        ResultAtStart(st, 0);
      } else {
        var colon := Next(st, 0, ':').state;
        assert Run(st, 0) == Run(colon, 1);
        if |s| > 1 && s[1] == ':' {
          ResultAfterDoubleColon(Next(colon, 1, ':').state, 2);
        }
      }
    }
  }

  // ---- No fault means an address of the grammar -------------------------------------------------

  /** At the first dot of a decimal group everything hangs on the IPv4 recogniser. */
  lemma CompletesTrailer(n: nat, elided: bool, t: string, i: nat)
    requires 0 < i <= 4 && i < |t| && t[i] == '.' && AllDigits(t[..i])
    ensures Completes(n, elided, t) <==> Ipv4.Validate(t).Ok? && CheckGroups(elided, n + 2).Ok?
  {
    Ipv4.ValidateAccepts(t);
    FindAt(t, {'.'}, i);
    var a, b := CutGroup(t);
    assert forall k | 0 <= k < i :: t[..i][k] == t[k];
    assert a[i] == t[i];
    assert !Group(a);
    if t == a {
      CompletesSingle(n, elided, t);
    } else {
      CompletesBadGroup(n, elided, a, b);
      assert t[|a|] == ':';
      if Ipv4.Address(t) {
        Ipv4.OctetsCharacters(t, 4);
      }
    }
  }

  lemma ReadPieceMeans(p: string)
    requires p != []
    ensures ReadPiece(p).Whole? <==> Group(p)
    ensures ReadPiece(p).Dotted? ==>
              0 < Span(p, HEXDIG) <= 4 && Span(p, HEXDIG) < |p| && p[Span(p, HEXDIG)] == '.'
              && AllDigits(p[..Span(p, HEXDIG)])
  {
  }

  lemma {:induction false} CheckFromAccepts(n: nat, elided: bool, t: string)
    requires t != [] && t[0] != ':'
    ensures CheckFrom(n, elided, t).Ok? <==> Completes(n, elided, t)
    decreases |t|, 0
  {
    hide Completes, Groups, Elided, Ipv4.Validate, CheckGroups, Ipv4Tail, Group, ReadPiece, CheckAfterColon, Find, Span;
    var k := Find(t, {':'});
    var p := t[..k];
    ReadPieceMeans(p);
    match ReadPiece(p)
    case Whole =>
      if k == |t| {
        Empty(t);
        CompletesSingle(n, elided, t);
      } else {
        CutAt(t, k);
        CompletesPeel(n, elided, p, t[k + 1..]);
        CheckAfterColonAccepts(n + 1, elided, t[k + 1..]);
      }
    case Dotted =>
      var j := Span(p, HEXDIG);
      assert t[..j] == p[..j] && t[j] == p[j];
      CompletesTrailer(n, elided, t, j);
    case Faulty(_) =>
      NotCompletedPiece(n, elided, t);
  }

  /** Where a faulty piece stops being the start of a group or of an IPv4 tail. */
  lemma FaultAt(p: string) returns (j: nat)
    requires p != [] && ReadPiece(p).Faulty?
    ensures j < |p| && AllHex(p[..j]) && !(p[j] in HEXDIG && j < 4)
    ensures p[j] == '.' ==> !AllDigits(p[..j]) || j == 0
  {
    var k := Span(p, HEXDIG);
    j := if k > 4 then 4 else k;
  }

  lemma NotCompletedPiece(n: nat, elided: bool, t: string)
    requires t != [] && t[0] != ':' && ReadPiece(t[..Find(t, {':'})]).Faulty?
    ensures !Completes(n, elided, t)
  {
    hide Completes, ReadPiece, AllHex, AllDigits;
    var k := Find(t, {':'});
    var j := FaultAt(t[..k]);
    assert t[..j] == t[..k][..j];
    assert t[j] == t[..k][j];
    NotCompleted(n, elided, t, j);
  }

  lemma CheckAfterColonAccepts(n: nat, elided: bool, t: string)
    ensures CheckAfterColon(n, elided, t).Ok? <==>
            t != [] && if t[0] == ':' then !elided && Completes(n, true, t[1..]) else Completes(n, elided, t)
    decreases |t|, 1
  {
    hide Completes, CheckFrom, CheckAfterDoubleColon;
    if t != [] {
      if t[0] != ':' {
        CheckFromAccepts(n, elided, t);
      } else {
        CheckAfterDoubleColonAccepts(n, t[1..]);
      }
    }
  }

  lemma CheckAfterDoubleColonAccepts(n: nat, t: string)
    ensures CheckAfterDoubleColon(n, t).Ok? <==> Completes(n, true, t)
    decreases |t|, 1
  {
    hide CheckFrom, Elided;
    if t != [] {
      if t[0] == ':' {
        Uncons(t);
        CompletesColon(n, true, t[1..]);
      } else {
        CheckFromAccepts(n, true, t);
      }
    }
  }

  /** `validate_ipv6_address` accepts exactly the addresses of the grammar. */
  lemma ValidateAccepts(s: string)
    ensures Validate(s).Ok? <==> Address(s)
  {
    hide Completes, CheckFrom, CheckAfterDoubleColon;
    ValidateResult(s);
    CheckAfterColonAccepts(0, false, s);
    if s != [] && s[0] == ':' {
      Uncons(s);
      CompletesColon(0, false, s[1..]);
      if |s| > 1 {
        DropDrop(s, 1, 1);
        CheckAfterDoubleColonAccepts(0, s[2..]);
      }
    }
    if s == [] {
      NoGroups();
    }
  }

  lemma NoGroups()
    ensures Completes(0, false, []) <==> CheckGroups(false, 0).Ok?
  {
  }

  // ---- Counting groups --------------------------------------------------------------------------

  lemma GroupsStart(t: string)
    requires Groups(t, true).Some? && t != []
    ensures t[0] != ':'
  {
    if t[0] == ':' {
      assert t == [] + ":" + t[1..];
      GroupsPeel([], t[1..], true);
    }
  }

  /** An IPv4 tail is left to the IPv4 recogniser, and passes it. */
  lemma TailPiece(t: string)
    requires t != [] && Avoids(t, {':'}) && Ipv4Tail(t)
    ensures ReadPiece(t).Dotted? && Ipv4.Validate(t).Ok?
  {
    hide Ipv4.Validate, Ipv4Tail, ReadPiece;
    Ipv4TailNotGroup(t);
    GroupsSingle(t, true);
    ReadPieceMeans(t);
    assert Completes(6, false, t);
    CheckFromAccepts(6, false, t);
    FindAt(t, {':'}, |t|);
    Empty(t);
  }

  lemma CheckFromPeel(n: nat, elided: bool, a: string, b: string)
    requires Group(a) && Avoids(a, {':'})
    ensures CheckFrom(n, elided, a) == CheckGroups(elided, n + 1)
    ensures CheckFrom(n, elided, a + ":" + b) == CheckAfterColon(n + 1, elided, b)
  {
    hide CheckGroups, CheckAfterColon;
    ReadPieceMeans(a);
    FindAt(a, {':'}, |a|);
    Empty(a);
    Assoc(a, ":", b);
    FindConcat(a, ":" + b, {':'});
    DropPrefix(a + ":", b);
  }

  lemma {:induction false} CountFrom(n: nat, elided: bool, t: string)
    requires t != [] && t[0] != ':' && Groups(t, true).Some?
    ensures CheckFrom(n, elided, t) == CheckGroups(elided, n + Groups(t, true).value)
    decreases |t|
  {
    hide CheckFrom, CheckGroups, Groups, Ipv4Tail, Group;
    var k := Find(t, {':'});
    var a := t[..k];
    if k == |t| {
      Empty(t);
      GroupsSingle(t, true);
      if Group(t) {
        CheckFromPeel(n, elided, t, []);
      } else {
        CheckTail(n, elided, t);
      }
    } else {
      var b := t[k + 1..];
      CutAt(t, k);
      GroupsPeel(a, b, true);
      CheckFromPeel(n, elided, a, b);
      GroupsStart(b);
      CountFrom(n + 1, elided, b);
    }
  }

  lemma CheckTail(n: nat, elided: bool, t: string)
    requires t != [] && Avoids(t, {':'}) && Ipv4Tail(t)
    ensures t[0] != ':' && CheckFrom(n, elided, t) == CheckGroups(elided, n + 2)
  {
    hide CheckGroups, Ipv4Tail, ReadPiece, Ipv4.Validate;
    TailPiece(t);
    FindAt(t, {':'}, |t|);
    Empty(t);
  }

  lemma CountAfterDoubleColon(n: nat, r: string)
    requires Groups(r, true).Some?
    ensures CheckAfterDoubleColon(n, r) == CheckGroups(true, n + Groups(r, true).value)
  {
    hide CheckFrom, CheckGroups;
    if r != [] {
      hide Groups;
      GroupsStart(r);
      CountFrom(n, true, r);
    }
  }

  lemma {:induction false} CountElided(n: nat, l: string, r: string)
    requires l != [] && Groups(l, false).Some? && Groups(r, true).Some?
    ensures var s := l + ":" + (":" + r);
            s[0] != ':' &&
            CheckFrom(n, false, s) == CheckGroups(true, n + Groups(l, false).value + Groups(r, true).value)
    decreases |l|
  {
    hide CheckFrom, CheckGroups, Groups, Group, CheckAfterDoubleColon;
    var k := Find(l, {':'});
    var a := l[..k];
    HeadTail(':', r);
    if k == |l| {
      Empty(l);
      GroupsSingle(l, false);
      GroupStart(l);
      CheckFromPeel(n, false, l, ":" + r);
      CountAfterDoubleColon(n + 1, r);
    } else {
      var b := l[k + 1..];
      CutAt(l, k);
      GroupsPeel(a, b, false);
      GroupStart(a);
      Regroup(a, b, ":" + r);
      CountElided(n + 1, b, r);
      CheckFromPeel(n, false, a, b + ":" + (":" + r));
    }
  }

  lemma GroupStart(a: string)
    requires Group(a)
    ensures a != [] && a[0] != ':'
  {
  }

  /** Groups without `::`, an IPv4 part counting two: eight are an address, fewer too few and more too many. */
  lemma GroupsCounted(s: string)
    requires Groups(s, true).Some?
    ensures Validate(s) ==
            if Groups(s, true).value == 8 then Ok(())
            else if Groups(s, true).value < 8 then Err(TooFewAddressParts)
            else Err(TooManyAddressParts)
  {
    hide CheckFrom;
    ValidateResult(s);
    if s != [] {
      hide Groups;
      GroupsStart(s);
      CountFrom(0, false, s);
    }
  }

  /** Groups on both sides of a `::`: at most seven are an address, more too many. */
  lemma ElidedCounted(l: string, r: string)
    requires Groups(l, false).Some? && Groups(r, true).Some?
    ensures Validate(l + ":" + (":" + r)) ==
            if Groups(l, false).value + Groups(r, true).value <= 7 then Ok(()) else Err(TooManyAddressParts)
  {
    hide CheckFrom, CheckAfterDoubleColon;
    var s := l + ":" + (":" + r);
    ValidateResult(s);
    if l == [] {
      assert s[2..] == r;
      hide Groups;
      CountAfterDoubleColon(0, r);
      NoGroupsLeft();
    } else {
      hide Groups;
      CountElided(0, l, r);
    }
  }

  lemma NoGroupsLeft()
    ensures Groups([], false) == Some(0)
  {
  }

  // ---- IPv6address of section 3.2.2 of RFC 3986 -------------------------------------------------

  /** IPv4address as in the RFC, or with the leading zeros the recogniser allows. */
  ghost predicate Ipv4Part(x: string, strict: bool) {
    if strict then Ipv4.RfcAddress(x) else Ipv4Tail(x)
  }

  /** k( h16 ":" ) ls32 */
  ghost predicate Ls32(t: string, k: nat, strict: bool) {
    var parts := Split(t, ':');
    || (|parts| == k + 2 && AllGroups(parts))
    || (|parts| == k + 1 && AllGroups(parts[..k]) && Ipv4Part(parts[k], strict))
  }

  /** [ *(m - 1)( h16 ":" ) h16 ] */
  ghost predicate UpTo(l: string, m: nat) {
    l == [] || (|Split(l, ':')| <= m && AllGroups(Split(l, ':')))
  }

  /** The alternatives with `::` at `j`. */
  ghost predicate RfcElided(s: string, j: nat, strict: bool) {
    && j + 1 < |s| && s[j] == ':' && s[j + 1] == ':'
    && var l, r := s[..j], s[j + 2..];
       || (Ls32(r, 5, strict) && l == [])
       || (Ls32(r, 4, strict) && UpTo(l, 1))
       || (Ls32(r, 3, strict) && UpTo(l, 2))
       || (Ls32(r, 2, strict) && UpTo(l, 3))
       || (Ls32(r, 1, strict) && UpTo(l, 4))
       || (Ls32(r, 0, strict) && UpTo(l, 5))
       || (Group(r) && UpTo(l, 6))
       || (r == [] && UpTo(l, 7))
  }

  /** The nine alternatives of IPv6address. */
  ghost predicate RfcAddress(s: string, strict: bool) {
    Ls32(s, 6, strict) || exists j: nat :: RfcElided(s, j, strict)
  }

  lemma Ipv4TailNotGroup(x: string)
    requires Ipv4Tail(x)
    ensures !Group(x)
  {
    var i := Find(x, {'.'});
    assert i == |x| ==> Split(x, '.') == [x];
    assert i < |x| && x[i] !in HEXDIG;
  }

  lemma Ls32Groups(t: string, k: nat)
    ensures Ls32(t, k, false) <==> Groups(t, true) == Some(k + 2)
  {
    var parts := Split(t, ':');
    var n := |parts| - 1;
    if t == [] {
      SplitPeel([], [], ':');
      Ipv4NotEmpty();
    } else {
      assert parts == parts[..n] + [parts[n]];
      AllGroupsSnoc(parts[..n], parts[n]);
      if Ipv4Tail(parts[n]) {
        Ipv4TailNotGroup(parts[n]);
      }
    }
  }

  lemma AllGroupsSnoc(parts: seq<string>, a: string)
    ensures AllGroups(parts + [a]) <==> AllGroups(parts) && Group(a)
  {
    var all := parts + [a];
    assert all[|parts|] == a;
    assert forall k | 0 <= k < |parts| :: parts[k] == all[k];
  }

  lemma UpToGroups(l: string, m: nat)
    ensures UpTo(l, m) <==> Groups(l, false).Some? && Groups(l, false).value <= m
  {
    var parts := Split(l, ':');
    var n := |parts| - 1;
    assert parts == parts[..n] + [parts[n]];
    AllGroupsSnoc(parts[..n], parts[n]);
  }

  lemma GroupsOne(r: string)
    ensures Groups(r, true) == Some(1) <==> Group(r)
    ensures Groups(r, true) == Some(0) <==> r == []
  {
    var parts := Split(r, ':');
    assert |parts| == 1 ==> parts[0] == r;
    if Group(r) {
      SplitPeel(r, [], ':');
    }
  }

  lemma RfcElidedIsElided(s: string, j: nat)
    ensures RfcElided(s, j, false) <==> ElidedAt(0, s, j)
  {
    if j + 1 < |s| {
      hide Groups, Ls32, UpTo, Group;
      var l, r := s[..j], s[j + 2..];
      Ls32Groups(r, 0);
      Ls32Groups(r, 1);
      Ls32Groups(r, 2);
      Ls32Groups(r, 3);
      Ls32Groups(r, 4);
      Ls32Groups(r, 5);
      GroupsOne(r);
      UpToGroups(l, 0);
      UpToGroups(l, 1);
      UpToGroups(l, 2);
      UpToGroups(l, 3);
      UpToGroups(l, 4);
      UpToGroups(l, 5);
      UpToGroups(l, 6);
      UpToGroups(l, 7);
      UpToNothing(l);
    }
  }

  lemma UpToNothing(l: string)
    ensures UpTo(l, 0) <==> l == []
  {
  }

  /** The text after the last colon. */
  function LastPart(s: string): string {
    Split(s, ':')[|Split(s, ':')| - 1]
  }

  /** A final IPv4 part, if there is one, has no octet with a leading zero. */
  ghost predicate PlainTail(s: string) {
    '.' in LastPart(s) ==> Ipv4.NoLeadingZeros(Split(LastPart(s), '.'))
  }

  lemma LastPartPeel(a: string, b: string)
    requires Avoids(a, {':'})
    ensures LastPart(a + ":" + b) == LastPart(b)
  {
    SplitPeel(a, b, ':');
  }

  lemma {:induction false} LastPartOf(a: string, b: string)
    ensures LastPart(a + ":" + b) == LastPart(b)
    decreases |a|
  {
    hide Find, LastPart, Avoids;
    var k := Find(a, {':'});
    if k == |a| {
      Empty(a);
      LastPartPeel(a, b);
    } else {
      CutAt(a, k);
      Regroup(a[..k], a[k + 1..], b);
      LastPartPeel(a[..k], a[k + 1..] + ":" + b);
      LastPartOf(a[k + 1..], b);
    }
  }

  lemma Regroup(c: string, d: string, b: string)
    ensures (c + ":" + d) + ":" + b == c + ":" + (d + ":" + b)
  {
  }

  lemma StrictTail(x: string)
    ensures Ipv4.RfcAddress(x) <==> Ipv4Tail(x) && Ipv4.NoLeadingZeros(Split(x, '.'))
    ensures Ipv4Tail(x) ==> '.' in x
  {
    Ipv4.ValidateAcceptsRfcAddresses(x);
    Ipv4.ValidateAccepts(x);
    var parts := Split(x, '.');
    var i := Find(x, {'.'});
    assert i == |x| ==> parts == [x];
    if Ipv4.RfcAddress(x) {
      assert Ipv4.DecOctet(parts[0]);
      assert parts[0] == x[..i];
    }
  }

  lemma Ls32Strict(t: string, k: nat)
    ensures Ls32(t, k, true) <==> Ls32(t, k, false) && PlainTail(t)
  {
    hide Ipv4Tail, Ipv4.RfcAddress, Ipv4.NoLeadingZeros, Split, Find;
    var parts := Split(t, ':');
    var last := parts[|parts| - 1];
    StrictTail(last);
    assert AllGroups(parts) ==> Group(last);
    assert Group(last) ==> '.' !in last;
  }

  lemma PlainShort(r: string)
    requires r == [] || Group(r)
    ensures PlainTail(r)
  {
    SplitPeel(r, [], ':');
  }

  lemma RfcElidedStrict(s: string, j: nat)
    ensures RfcElided(s, j, true) <==> RfcElided(s, j, false) && PlainTail(s)
  {
    if j + 1 < |s| && s[j] == ':' && s[j + 1] == ':' {
      var l, r := s[..j], s[j + 2..];
      assert s == l + ":" + (":" + r);
      assert ":" + r == [] + ":" + r;
      LastPartOf(l, ":" + r);
      LastPartOf([], r);
      hide Ls32, UpTo, Group, LastPart;
      Ls32Strict(r, 0);
      Ls32Strict(r, 1);
      Ls32Strict(r, 2);
      Ls32Strict(r, 3);
      Ls32Strict(r, 4);
      Ls32Strict(r, 5);
      if r == [] || Group(r) {
        PlainShort(r);
      }
    }
  }

  /**
   `validate_ipv6_address` accepts the nine alternatives with leading zeros allowed in the octets of the
   IPv4 part, so the RFC's IPv6address are exactly the accepted texts without such zeros.
   */
  lemma ValidateAcceptsRfcAddresses(s: string)
    ensures Validate(s).Ok? <==> RfcAddress(s, false)
    ensures RfcAddress(s, true) <==> Validate(s).Ok? && PlainTail(s)
  {
    hide Validate, Groups, Ls32, RfcElided, ElidedAt, PlainTail;
    ValidateAccepts(s);
    Ls32Groups(s, 6);
    Ls32Strict(s, 6);
    forall j: nat
      ensures RfcElided(s, j, false) <==> ElidedAt(0, s, j)
      ensures RfcElided(s, j, true) <==> RfcElided(s, j, false) && PlainTail(s)
    {
      RfcElidedIsElided(s, j);
      RfcElidedStrict(s, j);
    }
  }

  /** `::01.2.3.4` is accepted and is no IPv6address of the RFC. */
  lemma LeadingZeroAccepted()
    ensures Validate("::01.2.3.4").Ok? && !RfcAddress("::01.2.3.4", true)
  {
    hide Validate, RfcAddress, PlainTail, ElidedAt, Groups;
    var s := "::01.2.3.4";
    LeadingZeroParts();
    ValidateAccepts(s);
    assert Address(s) by { assert ElidedAt(0, s, 0); }
    ValidateAcceptsRfcAddresses(s);
  }

  lemma LeadingZeroParts()
    ensures ElidedAt(0, "::01.2.3.4", 0) && !PlainTail("::01.2.3.4")
  {
    hide Split, Ipv4Tail, Ipv4.NoLeadingZeros;
    var s, r := "::01.2.3.4", "01.2.3.4";
    LeadingZeroTail();
    assert r[2] == '.';
    assert Avoids(r, {':'}) && !Group(r);
    assert s[..0] == [] && s[2..] == r;
    GroupsSingle(r, true);
    assert s == ":" + ":" + r;
    LastPartOf(":", r);
    SplitPeel(r, [], ':');
  }

  lemma LeadingZeroTail()
    ensures Ipv4Tail("01.2.3.4") && !Ipv4.NoLeadingZeros(Split("01.2.3.4", '.'))
  {
    hide Split;
    Ipv4.OctetsPeel("01", "2.3.4", 4);
    Ipv4.OctetsPeel("2", "3.4", 3);
    Ipv4.OctetsPeel("3", "4", 2);
    Ipv4.OctetsPeel("4", "", 1);
    SplitPeel("01", "2.3.4", '.');
    assert "01.2.3.4" == "01" + "." + "2.3.4" && "2.3.4" == "2" + "." + "3.4" && "3.4" == "3" + "." + "4";
    Ipv4.ValueOfFew("01");
    Ipv4.ValueOfFew("2");
    Ipv4.ValueOfFew("3");
    Ipv4.ValueOfFew("4");
    FindAt("01.2.3.4", {'.'}, 2);
    assert Split("01.2.3.4", '.')[0] == "01" && "01"[0] == '0';
  }

  // ---- Accepted texts are ASCII, and case does not matter ---------------------------------------

  predicate AddressCharacter(c: char) {
    c in HEXDIG || c == ':' || c == '.'
  }

  lemma {:induction false} AcceptsCharacters(st: State, i: nat, k: nat)
    requires i <= |st.shared.address| && st.shared.potentialIpv4Start <= i && !st.InGroupIpv4?
    requires ResultOf(st, i).Ok?
    requires i <= k < |st.shared.address|
    ensures AddressCharacter(st.shared.address[k])
    decreases |st.shared.address| - i
  {
    hide Ipv4.Validate;
    var sh := st.shared;
    var step := Next(st, i, sh.address[i]);
    if step.Ipv4Trailer? {
      var tail := sh.address[sh.potentialIpv4Start..];
      Ipv4.AcceptedCharacters(tail);
      assert sh.address[k] == tail[k - sh.potentialIpv4Start];
    } else if k > i {
      AcceptsCharacters(step.state, i + 1, k);
    }
  }

  /** Every accepted address is ASCII, so the byte conversion of the host cannot fail. */
  lemma AcceptedIsAscii(s: string)
    requires Validate(s).Ok?
    ensures Ascii.IsAscii(s)
    ensures forall k | 0 <= k < |s| :: AddressCharacter(s[k])
  {
    hide Validate;
    forall k | 0 <= k < |s|
      ensures AddressCharacter(s[k])
    {
      AcceptedCharacter(s, k);
    }
  }

  lemma AcceptedCharacter(s: string, k: nat)
    requires Validate(s).Ok? && k < |s|
    ensures AddressCharacter(s[k])
  {
    AcceptsCharacters(New(s), 0, k);
  }

  function LowerState(st: State): State {
    st.(shared := st.shared.(address := Ascii.Lower(st.shared.address)))
  }

  lemma NextLower(st: State, i: nat, c: char)
    ensures Next(LowerState(st), i, Ascii.LowerChar(c)) ==
            match Next(st, i, c)
            case Go(st') => Go(LowerState(st'))
            case Fail(e) => Fail(e)
            case Ipv4Trailer(sh) => Ipv4Trailer(sh.(address := Ascii.Lower(st.shared.address)))
  {
    var d := Ascii.LowerChar(c);
    assert d in DIGIT <==> c in DIGIT;
    assert d in HEXDIG <==> c in HEXDIG;
  }

  lemma Ipv4Lower(s: string)
    requires Ipv4.Validate(s).Ok?
    ensures Ascii.Lower(s) == s
  {
    Ipv4.AcceptedCharacters(s);
  }

  lemma {:induction false} AcceptsLower(st: State, i: nat)
    requires i <= |st.shared.address| && st.shared.potentialIpv4Start <= i && !st.InGroupIpv4?
    requires ResultOf(st, i).Ok?
    ensures ResultOf(LowerState(st), i).Ok?
    decreases |st.shared.address| - i
  {
    hide Ipv4.Validate, Next, CheckGroups;
    var sh := st.shared;
    if i < |sh.address| {
      var c := sh.address[i];
      NextLower(st, i, c);
      NextKeeps(st, i, c);
      match Next(st, i, c)
      case Go(st') => AcceptsLower(st', i + 1);
      case Ipv4Trailer(_) =>
        var tail := sh.address[sh.potentialIpv4Start..];
        Ipv4Lower(tail);
        assert Ascii.Lower(sh.address)[sh.potentialIpv4Start..] == Ascii.Lower(tail);
      case Fail(_) =>
    }
  }

  lemma NextKeeps(st: State, i: nat, c: char)
    requires !st.InGroupIpv4? && st.shared.potentialIpv4Start <= i
    ensures match Next(st, i, c)
            case Go(st') =>
              !st'.InGroupIpv4? && st'.shared.address == st.shared.address && st'.shared.potentialIpv4Start <= i
            case Ipv4Trailer(sh) => sh == st.shared
            case Fail(_) => true
  {
  }

  /** Lowering the case of an accepted address leaves it accepted. */
  lemma AcceptedLower(s: string)
    requires Validate(s).Ok?
    ensures Validate(Ascii.Lower(s)).Ok?
  {
    AcceptsLower(New(s), 0);
  }

  // ---- Run invariant ----------------------------------------------------------------------------

  /** Groups ended by a colon in `s`: the colons that directly follow another character. */
  function EndedGroups(s: string): nat {
    if |s| < 2 then 0
    else EndedGroups(s[..|s| - 1]) + if s[|s| - 1] == ':' && s[|s| - 2] != ':' then 1 else 0
  }

  ghost predicate HasDoubleColon(s: string) {
    exists k :: 0 < k < |s| && s[k - 1] == ':' && s[k] == ':'
  }

  /** What the machine knows after reading `s`, in terms of `s` alone. */
  ghost predicate Remembers(st: State, s: string) {
    var sh := st.shared;
    var start := |s| - sh.numDigits; // of the group being read
    && sh.numGroups == EndedGroups(s)
    && sh.numDigits <= 4 && start >= 0
    && AllHex(s[start..])
    && (start > 0 ==> s[start - 1] == ':')
    && (sh.doubleColonEncountered <==> HasDoubleColon(s))
    && (st.NoGroupsYet? <==> s == [])
    && (st.ColonButNoGroupsYet? <==> s == ":")
    && (st.AfterDoubleColon? <==> |s| >= 2 && s[|s| - 1] == ':' && s[|s| - 2] == ':')
    && (st.ColonAfterGroup? <==> |s| >= 2 && s[|s| - 1] == ':' && s[|s| - 2] != ':')
    && (st.InGroupCouldBeIpv4? <==> sh.numDigits > 0 && AllDigits(s[start..]))
    && (st.InGroupNotIpv4? <==> sh.numDigits > 0 && !AllDigits(s[start..]))
    && (st.InGroupCouldBeIpv4? ==> sh.potentialIpv4Start == start)
  }

  lemma DoubleColonSnoc(s: string, c: char)
    ensures HasDoubleColon(s + [c]) <==> HasDoubleColon(s) || (s != [] && s[|s| - 1] == ':' && c == ':')
  {
    var t := s + [c];
    assert s != [] ==> t[|s| - 1] == s[|s| - 1] && t[|s|] == c;
    if HasDoubleColon(s) {
      var k :| 0 < k < |s| && s[k - 1] == ':' && s[k] == ':';
      assert t[k - 1] == ':' && t[k] == ':';
    }
    if HasDoubleColon(t) {
      var k :| 0 < k < |t| && t[k - 1] == ':' && t[k] == ':';
      assert k < |s| ==> s[k - 1] == ':' && s[k] == ':';
    }
  }

  lemma EndedGroupsSnoc(s: string, c: char)
    ensures EndedGroups(s + [c]) == EndedGroups(s) + if s != [] && c == ':' && s[|s| - 1] != ':' then 1 else 0
  {
    DropPrefix(s, [c]);
  }

  lemma NextRemembers(st: State, s: string, c: char)
    requires Remembers(st, s) && !st.InGroupIpv4? && Next(st, |s|, c).Go?
    ensures Remembers(Next(st, |s|, c).state, s + [c])
  {
    hide HasDoubleColon, EndedGroups, AllHex, AllDigits;
    var t := s + [c];
    var start := |s| - st.shared.numDigits;
    DoubleColonSnoc(s, c);
    EndedGroupsSnoc(s, c);
    if c == ':' {
      AllEmpty(t[|t|..]);
    } else {
      assert t[start..] == s[start..] + [c];
      AllSnoc(s[start..], c);
      AllEmpty(s[|s|..]);
    }
  }

  lemma AllEmpty(a: string)
    requires a == []
    ensures AllDigits(a) && AllHex(a)
  {
  }

  lemma AllSnoc(a: string, c: char)
    ensures AllDigits(a + [c]) <==> AllDigits(a) && c in DIGIT
    ensures AllHex(a + [c]) <==> AllHex(a) && c in HEXDIG
  {
    assert forall k | 0 <= k < |a| :: (a + [c])[k] == a[k];
    assert (a + [c])[|a|] == c;
  }

  /** From a state that describes the text read so far, reading on ends in one that describes all of it. */
  lemma {:induction false} RunRemembers(st: State, i: nat)
    requires i <= |st.shared.address| && st.shared.potentialIpv4Start <= i && !st.InGroupIpv4?
    requires Remembers(st, st.shared.address[..i])
    requires Run(st, i).Go?
    ensures !Run(st, i).state.InGroupIpv4? && Remembers(Run(st, i).state, st.shared.address)
    decreases |st.shared.address| - i
  {
    hide Remembers, Next;
    var address := st.shared.address;
    if i == |address| {
      Empty(address);
    } else {
      var c := address[i];
      assert address[..i + 1] == address[..i] + [c];
      NextRemembers(st, address[..i], c);
      NextKeeps(st, i, c);
      RunRemembers(Next(st, i, c).state, i + 1);
    }
  }

  /** After every text the machine reads without stopping, its counters and flags describe that text. */
  lemma RunInvariant(s: string)
    requires Run(New(s), 0).Go?
    ensures Remembers(Run(New(s), 0).state, s)
  {
    RunRemembers(New(s), 0);
  }
}
