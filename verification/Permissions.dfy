/** A bot's permissions in a channel: the roles of the guild, then the overwrites of the channel, on 64-bit masks. */
module Permissions {
  import opened Wrappers

  type Position = bv6

  /** A 64-bit mask, as the set of its bits. */
  type Mask = set<Position>

  const ADMINISTRATOR: Position := 3
  /** View channel, send messages, read message history, mention roles. */
  const SETUP_MASK: Mask := {10, 11, 16, 28}

  /** A role as received; permissions that are no number are absent. */
  datatype Role = Role(id: string, permissions: Option<Mask>)

  /** An overwrite as received: kind 0 is a role, 1 a member; a mask that is no number is absent. */
  datatype Overwrite = Overwrite(id: string, kind: int, allow: Option<Mask>, deny: Option<Mask>)

  datatype OverwriteKind = ForRole | ForMember

  datatype Parsed = Parsed(kind: OverwriteKind, allow: Mask, deny: Mask)

  datatype SetupError = InvalidGuild | InvalidMembership | InvalidChannel

  // ---------- masks as words ----------

  predicate Has(word: bv64, k: bv6) { (word >> k) & 1 == 1 }

  /** Setting the bits of a word is, at every bit, union of masks. */
  lemma SetBits(word: bv64, allow: bv64, k: bv6)
    ensures Has(word | allow, k) <==> Has(word, k) || Has(allow, k)
  {
  }

  /** Clearing the bits of a word is, at every bit, difference of masks. */
  lemma ClearBits(word: bv64, deny: bv64, k: bv6)
    ensures Has(word & !deny, k) <==> Has(word, k) && !Has(deny, k)
  {
  }

  /** Words that differ, differ in some bit. */
  lemma WordsAreTheirBits(a: bv64, b: bv64) returns (k: bv6)
    requires a != b
    ensures Has(a, k) != Has(b, k)
  {
    var x := a ^ b;
    var y := x;
    k := 0;
    if y & 0xffff_ffff == 0 { k := k + 32; y := y >> 32; }
    if y & 0xffff == 0 { k := k + 16; y := y >> 16; }
    if y & 0xff == 0 { k := k + 8; y := y >> 8; }
    if y & 0xf == 0 { k := k + 4; y := y >> 4; }
    if y & 0x3 == 0 { k := k + 2; y := y >> 2; }
    if y & 0x1 == 0 { k := k + 1; y := y >> 1; }
    assert y & 1 == 1;
    assert (x >> k) & 1 == 1;
  }

  /** The mask a word stands for. */
  function BitsOf(word: bv64): (m: Mask)
    ensures forall k: Position :: k in m <==> Has(word, k)
  {
    BitsFrom(word, 0)
  }

  /** The bits from position `k` on. */
  function BitsFrom(word: bv64, k: Position): (m: Mask)
    ensures forall j: Position :: j in m <==> k <= j && Has(word, j)
    decreases 63 - k
  {
    (if Has(word, k) then {k} else {}) + if k == 63 then {} else BitsFrom(word, k + 1)
  }

  lemma JoinedBit(a: bv64, b: bv64, k: Position)
    ensures k in BitsOf(a | b) <==> k in BitsOf(a) || k in BitsOf(b)
  {
    SetBits(a, b, k);
  }

  lemma ClearedBit(a: bv64, b: bv64, k: Position)
    ensures k in BitsOf(a & !b) <==> k in BitsOf(a) && k !in BitsOf(b)
  {
    ClearBits(a, b, k);
  }

  /** Joining words joins their masks, as the loop over the member's roles does. */
  lemma JoinedWords(a: bv64, b: bv64, mask: Mask, joined: Mask)
    requires mask == BitsOf(a | b) && joined == BitsOf(a) + BitsOf(b)
    ensures mask == joined
  {
    forall k: Position ensures k in mask <==> k in joined { JoinedBit(a, b, k); }
  }

  lemma ClearedWords(a: bv64, b: bv64, mask: Mask, cleared: Mask)
    requires mask == BitsOf(a & !b) && cleared == BitsOf(a) - BitsOf(b)
    ensures mask == cleared
  {
    forall k: Position ensures k in mask <==> k in cleared { ClearedBit(a, b, k); }
  }

  /** A mask is that of one word only. */
  lemma MasksAreWords(a: bv64, b: bv64)
    ensures BitsOf(a) == BitsOf(b) <==> a == b
  {
    if a != b {
      var k := WordsAreTheirBits(a, b);
      assert k in BitsOf(a) <==> k !in BitsOf(b);
    }
  }

  // ---------- overwrites ----------

  function ParseOverwrite(o: Overwrite): Option<Parsed> {
    if (o.kind != 0 && o.kind != 1) || o.allow.None? || o.deny.None? then None
    else Some(Parsed(if o.kind == 0 then ForRole else ForMember, o.allow.value, o.deny.value))
  }

  function ParseOverwrites(raw: seq<Overwrite>, k: nat,
                           known: map<string, Parsed>): Result<map<string, Parsed>, SetupError>
    decreases |raw| - k
  {
    if k >= |raw| then Success(known)
    else if ParseOverwrite(raw[k]).None? || raw[k].id in known then Failure(InvalidChannel)
    else ParseOverwrites(raw, k + 1, known[raw[k].id := ParseOverwrite(raw[k]).value])
  }

  function ApplyOne(bits: Mask, o: Parsed): Mask { bits - o.deny + o.allow }

  /** On words, an overwrite clears the bits that it denies, and then sets those that it allows. */
  lemma ApplyOneIsMasking(word: bv64, allow: bv64, deny: bv64, o: Parsed, cleared: bv64, result: bv64)
    requires o.allow == BitsOf(allow) && o.deny == BitsOf(deny)
    requires cleared == word & !deny && result == cleared | allow
    ensures BitsOf(result) == ApplyOne(BitsOf(word), o)
  {
    ClearedWords(word, deny, BitsOf(cleared), BitsOf(word) - o.deny);
    JoinedWords(cleared, allow, BitsOf(result), BitsOf(cleared) + o.allow);
  }

  predicate KindIs(known: map<string, Parsed>, id: string, kind: OverwriteKind) {
    id in known ==> known[id].kind == kind
  }

  function ApplyIfAny(bits: Mask, known: map<string, Parsed>, id: string): Mask {
    if id in known then ApplyOne(bits, known[id]) else bits
  }

  /** The masks that the overwrites of the first `k` member roles allow and deny together. */
  function RoleMasks(known: map<string, Parsed>, roles: seq<string>, k: nat): (Mask, Mask)
    requires k <= |roles|
  {
    if k == 0 then ({}, {})
    else
      var (allow, deny) := RoleMasks(known, roles, k - 1);
      var id := roles[k - 1];
      if id in known then (allow + known[id].allow, deny + known[id].deny) else (allow, deny)
  }

  predicate RolesAreRoles(known: map<string, Parsed>, roles: seq<string>, k: nat)
    requires k <= |roles|
  {
    forall i :: 0 <= i < k ==> KindIs(known, roles[i], ForRole)
  }

  function ApplyParsed(bits: Mask, guild: string, bot: string, roles: seq<string>, known: map<string, Parsed>):
      Result<Mask, SetupError>
  {
    if !KindIs(known, guild, ForRole) || !RolesAreRoles(known, roles, |roles|) || !KindIs(known, bot, ForMember)
    then Failure(InvalidChannel)
    else
      var (allow, deny) := RoleMasks(known, roles, |roles|);
      Success(ApplyIfAny(ApplyIfAny(bits, known, guild) - deny + allow, known, bot))
  }

  function ApplyOverwrites(bits: Mask, guild: string, bot: string, roles: seq<string>, raw: seq<Overwrite>):
      Result<Mask, SetupError>
  {
    match ParseOverwrites(raw, 0, map[])
    case Failure(e) => Failure(e)
    case Success(known) => ApplyParsed(bits, guild, bot, roles, known)
  }

  method ParseAll(raw: seq<Overwrite>) returns (r: Result<map<string, Parsed>, SetupError>)
    ensures r == ParseOverwrites(raw, 0, map[])
  {
    var known := map[];
    for k := 0 to |raw|
      invariant ParseOverwrites(raw, k, known) == ParseOverwrites(raw, 0, map[])
    {
      var parsed := ParseOverwrite(raw[k]);
      if parsed.None? || raw[k].id in known { return Failure(InvalidChannel); }
      known := known[raw[k].id := parsed.value];
    }
    r := Success(known);
  }

  method Apply(bits: Mask, guild: string, bot: string, roles: seq<string>, raw: seq<Overwrite>)
      returns (r: Result<Mask, SetupError>)
    ensures r == ApplyOverwrites(bits, guild, bot, roles, raw)
  {
    var parsed := ParseAll(raw);
    if parsed.Failure? { return Failure(parsed.error); }
    var known := parsed.value;
    var permissions := bits;
    if guild in known {
      if known[guild].kind != ForRole { return Failure(InvalidChannel); }
      permissions := ApplyOne(permissions, known[guild]);
    }
    var roleAllow: Mask, roleDeny: Mask := {}, {};
    for k := 0 to |roles|
      invariant RolesAreRoles(known, roles, k) && (roleAllow, roleDeny) == RoleMasks(known, roles, k)
    {
      if roles[k] in known {
        if known[roles[k]].kind != ForRole { return Failure(InvalidChannel); }
        roleAllow := roleAllow + known[roles[k]].allow;
        roleDeny := roleDeny + known[roles[k]].deny;
      }
    }
    permissions := permissions - roleDeny + roleAllow;
    if bot in known {
      if known[bot].kind != ForMember { return Failure(InvalidChannel); }
      permissions := ApplyOne(permissions, known[bot]);
    }
    r := Success(permissions);
  }

  // ---------- what the overwrites decide ----------

  predicate Allows(known: map<string, Parsed>, id: string, k: Position) { id in known && k in known[id].allow }

  predicate Denies(known: map<string, Parsed>, id: string, k: Position) { id in known && k in known[id].deny }

  predicate AnyAllows(known: map<string, Parsed>, roles: seq<string>, k: Position) {
    exists i :: 0 <= i < |roles| && Allows(known, roles[i], k)
  }

  predicate AnyDenies(known: map<string, Parsed>, roles: seq<string>, k: Position) {
    exists i :: 0 <= i < |roles| && Denies(known, roles[i], k)
  }

  /** One bit, settled by the member, else by the roles, else by everyone; at each level, allowing wins. */
  predicate Settled(base: bool, known: map<string, Parsed>, guild: string, bot: string, roles: seq<string>,
                    k: Position) {
    if Allows(known, bot, k) then true
    else if Denies(known, bot, k) then false
    else if AnyAllows(known, roles, k) then true
    else if AnyDenies(known, roles, k) then false
    else if Allows(known, guild, k) then true
    else if Denies(known, guild, k) then false
    else base
  }

  lemma {:induction false} RoleMaskBits(known: map<string, Parsed>, roles: seq<string>, n: nat, k: Position)
    requires n <= |roles|
    ensures var (allow, deny) := RoleMasks(known, roles, n);
      && (k in allow <==> exists i :: 0 <= i < n && Allows(known, roles[i], k))
      && (k in deny <==> exists i :: 0 <= i < n && Denies(known, roles[i], k))
  {
    if n > 0 {
      RoleMaskBits(known, roles, n - 1, k);
    }
  }

  lemma ParsedBit(bits: Mask, guild: string, bot: string, roles: seq<string>, known: map<string, Parsed>, k: Position)
    requires ApplyParsed(bits, guild, bot, roles, known).Success?
    ensures k in ApplyParsed(bits, guild, bot, roles, known).value
      <==> Settled((k in bits), known, guild, bot, roles, k)
  {
    RoleMaskBits(known, roles, |roles|, k);
  }

  /** Of a kind that is known, 0 for roles and 1 for members, and with both of its masks readable. */
  predicate IsReadable(o: Overwrite) { (o.kind == 0 || o.kind == 1) && o.allow != None && o.deny != None }

  predicate Reads(o: Overwrite, p: Parsed) {
    && (o.kind == 0 <==> p.kind == ForRole) && (o.kind == 1 <==> p.kind == ForMember)
    && o.allow == Some(p.allow) && o.deny == Some(p.deny)
  }

  /** `known` is what the first `n` overwrites write down. */
  ghost predicate Holds(raw: seq<Overwrite>, n: nat, known: map<string, Parsed>) {
    && n <= |raw|
    && (forall i :: 0 <= i < n ==>
        IsReadable(raw[i]) && raw[i].id in known && Reads(raw[i], known[raw[i].id]))
    && (forall id :: id in known ==> exists i :: 0 <= i < n && raw[i].id == id)
  }

  predicate WellFormedTo(raw: seq<Overwrite>, n: nat)
    requires n <= |raw|
  {
    && (forall i :: 0 <= i < n ==> IsReadable(raw[i]))
    && (forall i, j :: 0 <= i < j < n ==> raw[i].id != raw[j].id)
  }

  predicate WellFormed(raw: seq<Overwrite>) { WellFormedTo(raw, |raw|) }

  lemma ParseOneMore(raw: seq<Overwrite>, n: nat, known: map<string, Parsed>)
    requires n < |raw| && Holds(raw, n, known) && WellFormedTo(raw, n)
    ensures !IsReadable(raw[n]) || raw[n].id in known ==> !WellFormed(raw)
    ensures ParseOverwrite(raw[n]).Some? && raw[n].id !in known
      ==> Holds(raw, n + 1, known[raw[n].id := ParseOverwrite(raw[n]).value]) && WellFormedTo(raw, n + 1)
  {
    if raw[n].id in known { var i :| 0 <= i < n && raw[i].id == raw[n].id; }
  }

  lemma {:induction false} ParseFrom(raw: seq<Overwrite>, n: nat, known: map<string, Parsed>)
    requires Holds(raw, n, known) && WellFormedTo(raw, n)
    ensures ParseOverwrites(raw, n, known).Success? <==> WellFormed(raw)
    ensures ParseOverwrites(raw, n, known).Success? ==> Holds(raw, |raw|, ParseOverwrites(raw, n, known).value)
    ensures ParseOverwrites(raw, n, known).Failure? ==> ParseOverwrites(raw, n, known).error == InvalidChannel
    decreases |raw| - n
  {
    if n < |raw| {
      ParseOneMore(raw, n, known);
      if ParseOverwrite(raw[n]).Some? && raw[n].id !in known {
        ParseFrom(raw, n + 1, known[raw[n].id := ParseOverwrite(raw[n]).value]);
      }
    }
  }

  /** Every bit of an accepted result is settled by precedence; acceptance needs well-formed overwrites of distinct ids,
      of the right kind wherever one is used. */
  lemma EveryBitIsSettled(bits: Mask, guild: string, bot: string, roles: seq<string>, raw: seq<Overwrite>, k: Position)
      returns (known: map<string, Parsed>)
    ensures WellFormed(raw) ==> Holds(raw, |raw|, known)
    ensures ApplyOverwrites(bits, guild, bot, roles, raw).Success?
      <==> WellFormed(raw) && KindIs(known, guild, ForRole) && RolesAreRoles(known, roles, |roles|)
           && KindIs(known, bot, ForMember)
    ensures ApplyOverwrites(bits, guild, bot, roles, raw).Success?
      ==> (k in ApplyOverwrites(bits, guild, bot, roles, raw).value
           <==> Settled((k in bits), known, guild, bot, roles, k))
  {
    ParseFrom(raw, 0, map[]);
    known := map[];
    if WellFormed(raw) {
      known := ParseOverwrites(raw, 0, map[]).value;
      if ApplyParsed(bits, guild, bot, roles, known).Success? { ParsedBit(bits, guild, bot, roles, known, k); }
    }
  }

  // ---------- order does not matter ----------

  predicate SameMembers<T(==)>(a: seq<T>, b: seq<T>) {
    (forall x :: x in a ==> x in b) && (forall x :: x in b ==> x in a)
  }

  lemma HoldsIsTheSame(raw: seq<Overwrite>, raw': seq<Overwrite>, known: map<string, Parsed>,
                       known': map<string, Parsed>)
    requires Holds(raw, |raw|, known) && Holds(raw', |raw'|, known') && SameMembers(raw, raw')
    ensures known == known'
  {
    HoldsIsWithin(raw, raw', known, known');
    HoldsIsWithin(raw', raw, known', known);
  }

  lemma HoldsIsWithin(raw: seq<Overwrite>, raw': seq<Overwrite>, known: map<string, Parsed>,
                      known': map<string, Parsed>)
    requires Holds(raw, |raw|, known) && Holds(raw', |raw'|, known') && SameMembers(raw, raw')
    ensures forall id :: id in known ==> id in known' && known'[id] == known[id]
  {
    forall id | id in known ensures id in known' && known'[id] == known[id] {
      var i :| 0 <= i < |raw| && raw[i].id == id;
      assert raw[i] in raw;
      var j :| 0 <= j < |raw'| && raw'[j] == raw[i];
    }
  }

  lemma SettledIsTheSame(base: bool, known: map<string, Parsed>, guild: string, bot: string, roles: seq<string>,
                         roles': seq<string>, k: Position)
    requires SameMembers(roles, roles')
    ensures Settled(base, known, guild, bot, roles, k) == Settled(base, known, guild, bot, roles', k)
  {
    AnyIsWithin(known, roles, roles', k);
    AnyIsWithin(known, roles', roles, k);
  }

  lemma AnyIsWithin(known: map<string, Parsed>, roles: seq<string>, roles': seq<string>, k: Position)
    requires SameMembers(roles, roles')
    ensures AnyAllows(known, roles, k) ==> AnyAllows(known, roles', k)
    ensures AnyDenies(known, roles, k) ==> AnyDenies(known, roles', k)
  {
    forall i | 0 <= i < |roles| ensures exists j :: 0 <= j < |roles'| && roles'[j] == roles[i] {
      assert roles[i] in roles;
    }
  }

  lemma RolesStayRoles(known: map<string, Parsed>, roles: seq<string>, roles': seq<string>)
    requires SameMembers(roles, roles') && RolesAreRoles(known, roles, |roles|)
    ensures RolesAreRoles(known, roles', |roles'|)
  {
    forall i | 0 <= i < |roles'| ensures KindIs(known, roles'[i], ForRole) {
      assert roles'[i] in roles;
      var j :| 0 <= j < |roles| && roles[j] == roles'[i];
    }
  }

  lemma ParsedOrder(bits: Mask, guild: string, bot: string, roles: seq<string>, roles': seq<string>,
                    known: map<string, Parsed>)
    requires SameMembers(roles, roles')
    ensures ApplyParsed(bits, guild, bot, roles, known) == ApplyParsed(bits, guild, bot, roles', known)
  {
    if RolesAreRoles(known, roles, |roles|) { RolesStayRoles(known, roles, roles'); }
    if RolesAreRoles(known, roles', |roles'|) { RolesStayRoles(known, roles', roles); }
    var a, b := ApplyParsed(bits, guild, bot, roles, known), ApplyParsed(bits, guild, bot, roles', known);
    if a.Success? {
      forall k: Position ensures k in a.value <==> k in b.value {
        ParsedBit(bits, guild, bot, roles, known, k);
        ParsedBit(bits, guild, bot, roles', known, k);
        SettledIsTheSame(k in bits, known, guild, bot, roles, roles', k);
      }
      assert a.value == b.value;
    }
  }

  /** Neither the order of the overwrites nor the order or repetition of the roles matters, for results and errors. */
  lemma OrderDoesNotMatter(bits: Mask, guild: string, bot: string, roles: seq<string>, roles': seq<string>,
                           raw: seq<Overwrite>, raw': seq<Overwrite>)
    requires SameMembers(roles, roles') && multiset(raw) == multiset(raw')
    ensures ApplyOverwrites(bits, guild, bot, roles, raw) == ApplyOverwrites(bits, guild, bot, roles', raw')
  {
    PermutedIsWellFormed(raw, raw');
    PermutedIsWellFormed(raw', raw);
    ParseFrom(raw, 0, map[]);
    ParseFrom(raw', 0, map[]);
    if WellFormed(raw) {
      var known := ParseOverwrites(raw, 0, map[]).value;
      HoldsIsTheSame(raw, raw', known, ParseOverwrites(raw', 0, map[]).value);
      ParsedOrder(bits, guild, bot, roles, roles', known);
    }
  }

  lemma {:induction false} DistinctOnce(raw: seq<Overwrite>, x: Overwrite)
    requires forall i, j :: 0 <= i < j < |raw| ==> raw[i].id != raw[j].id
    ensures multiset(raw)[x] <= 1
  {
    if raw != [] {
      var n := |raw| - 1;
      DistinctOnce(raw[..n], x);
      assert raw == raw[..n] + [raw[n]];
      if raw[n] == x { assert x !in raw[..n]; }
    }
  }

  lemma CountsTwice(raw: seq<Overwrite>, i: int, j: int)
    requires 0 <= i < j < |raw| && raw[i] == raw[j]
    ensures multiset(raw)[raw[i]] >= 2
  {
    assert raw == raw[..i] + [raw[i]] + raw[i + 1..j] + [raw[j]] + raw[j + 1..];
  }

  lemma PermutedIsWellFormed(raw: seq<Overwrite>, raw': seq<Overwrite>)
    requires multiset(raw) == multiset(raw')
    ensures SameMembers(raw, raw')
    ensures WellFormed(raw) ==> WellFormed(raw')
  {
    forall x ensures x in raw <==> x in raw' {
      assert x in raw <==> x in multiset(raw);
      assert x in raw' <==> x in multiset(raw');
    }
    if WellFormed(raw) {
      forall i | 0 <= i < |raw'| ensures IsReadable(raw'[i]) { assert raw'[i] in raw; }
      forall i, j | 0 <= i < j < |raw'| ensures raw'[i].id != raw'[j].id {
        DistinctOnce(raw, raw'[i]);
        if raw'[i] == raw'[j] { CountsTwice(raw', i, j); }
        assert raw'[i] in raw && raw'[j] in raw;
      }
    }
  }

  // ---------- the guild ----------

  function ReadRoles(roles: seq<Role>, k: nat, known: map<string, Mask>): Result<map<string, Mask>, SetupError>
    decreases |roles| - k
  {
    if k >= |roles| then Success(known)
    else if roles[k].permissions.None? || roles[k].id in known then Failure(InvalidGuild)
    else ReadRoles(roles, k + 1, known[roles[k].id := roles[k].permissions.value])
  }

  /** `bits` and the permissions of the member's roles from the `k`-th on. */
  function AddRoles(bits: Mask, known: map<string, Mask>, member: seq<string>, k: nat): Result<Mask, SetupError>
    decreases |member| - k
  {
    if k >= |member| then Success(bits)
    else if member[k] !in known then Failure(InvalidMembership)
    else AddRoles(bits + known[member[k]], known, member, k + 1)
  }

  function BasePermissions(guild: string, known: map<string, Mask>, member: seq<string>): Result<Mask, SetupError> {
    if guild !in known then Failure(InvalidGuild) else AddRoles(known[guild], known, member, 0)
  }

  /** Permissions in a channel, the administrator shortcut first. */
  function PermissionsFor(base: Mask, guild: string, bot: string, member: seq<string>, raw: seq<Overwrite>):
      Result<Mask, SetupError>
  {
    if ADMINISTRATOR in base then Success(base + SETUP_MASK)
    else ApplyOverwrites(base, guild, bot, member, raw)
  }

  method NewContext(guild: string, roles: seq<Role>, member: seq<string>) returns (r: Result<Mask, SetupError>)
    ensures r == (match ReadRoles(roles, 0, map[])
                  case Failure(e) => Failure(e)
                  case Success(known) => BasePermissions(guild, known, member))
  {
    var known: map<string, Mask> := map[];
    for k := 0 to |roles|
      invariant ReadRoles(roles, k, known) == ReadRoles(roles, 0, map[])
    {
      if roles[k].permissions.None? || roles[k].id in known { return Failure(InvalidGuild); }
      known := known[roles[k].id := roles[k].permissions.value];
    }
    if guild !in known { return Failure(InvalidGuild); }
    var base := known[guild];
    for k := 0 to |member|
      invariant AddRoles(base, known, member, k) == AddRoles(known[guild], known, member, 0)
    {
      if member[k] !in known { return Failure(InvalidMembership); }
      base := base + known[member[k]];
    }
    r := Success(base);
  }

  lemma {:induction false} AddRolesBit(bits: Mask, known: map<string, Mask>, member: seq<string>, n: nat, k: Position)
    requires n <= |member|
    ensures AddRoles(bits, known, member, n).Success? <==> forall i :: n <= i < |member| ==> member[i] in known
    ensures AddRoles(bits, known, member, n).Success?
      ==> (k in AddRoles(bits, known, member, n).value
           <==> (k in bits) || exists i :: n <= i < |member| && member[i] in known && k in known[member[i]])
    decreases |member| - n
  {
    if n < |member| && member[n] in known {
      AddRolesBit(bits + known[member[n]], known, member, n + 1, k);
      assert k in known[member[n]] ==> exists i :: n <= i < |member| && member[i] in known && k in known[member[i]];
    }
  }

  /** The base permissions are those of everyone and of the member's roles together; every role must be known. */
  lemma BaseIsTheUnion(guild: string, known: map<string, Mask>, member: seq<string>, k: Position)
    ensures BasePermissions(guild, known, member).Success? <==>
            guild in known && forall i :: 0 <= i < |member| ==> member[i] in known
    ensures BasePermissions(guild, known, member).Success?
      ==> (k in BasePermissions(guild, known, member).value
           <==> k in known[guild] || exists i :: 0 <= i < |member| && k in known[member[i]])
  {
    if guild in known { AddRolesBit(known[guild], known, member, 0, k); }
  }

  /** An administrator, who has bit 3, has the base permissions and the four that setup asks for, and no others,
      whatever the overwrites say, malformed ones included. */
  lemma AdministratorHasAll(base: Mask, guild: string, bot: string, member: seq<string>, raw: seq<Overwrite>,
                            k: Position)
    requires 3 in base
    ensures var r := PermissionsFor(base, guild, bot, member, raw);
            r.Success? && (k in r.value <==> k in base || k == 10 || k == 11 || k == 16 || k == 28)
  {
  }

  /** Of anyone else every bit is settled by the overwrites, by precedence; malformed overwrites, and such of the wrong
      kind where one is used, are an error. */
  lemma OthersAreSettled(base: Mask, guild: string, bot: string, member: seq<string>, raw: seq<Overwrite>, k: Position)
      returns (known: map<string, Parsed>)
    requires 3 !in base
    ensures WellFormed(raw) ==> Holds(raw, |raw|, known)
    ensures var r := PermissionsFor(base, guild, bot, member, raw);
            && (r.Success? <==> WellFormed(raw) && KindIs(known, guild, ForRole)
                                && RolesAreRoles(known, member, |member|) && KindIs(known, bot, ForMember))
            && (r.Success? ==> (k in r.value <==> Settled((k in base), known, guild, bot, member, k)))
  {
    known := EveryBitIsSettled(base, guild, bot, member, raw, k);
  }
}
