/** The scan of a whole tar stream, against archives as lists of tiles: header, content, zero
    padding to a block, and exactly two zero blocks at the end. */
module UstarScan {
  import opened Results
  import opened Bytes
  import opened UstarHeader

  const MAX_TOTAL_FILE_BYTES: nat := 67108864

  datatype Tile = Tile(header: seq<Byte>, content: seq<Byte>)

  /// the digest the source keeps is that of the content
  datatype Member = Member(path: MemberPath, size: nat, content: seq<Byte>)

  function PaddedSize(n: nat): (p: nat)
    ensures n <= p < n + BLOCK && p % BLOCK == 0
  {
    (n + BLOCK - 1) / BLOCK * BLOCK
  }

  function TileBytes(t: Tile): seq<Byte> {
    t.header + t.content + Zeros(PaddedSize(|t.content|) - |t.content|)
  }

  function Joined(tiles: seq<Tile>): seq<Byte> {
    if tiles == [] then [] else Joined(tiles[..|tiles|-1]) + TileBytes(tiles[|tiles|-1])
  }

  /** The stream of an archive. */
  function Serialise(tiles: seq<Tile>): seq<Byte> { Joined(tiles) + Zeros(2 * BLOCK) }

  predicate TileOk(t: Tile, rules: PathRules) {
    |t.header| == BLOCK && CheckHeader(t.header, rules).Ok? && SizeOf(t.header) == Some(|t.content|)
  }

  function MemberOf(t: Tile, rules: PathRules): Member
    requires TileOk(t, rules)
  {
    Member(CheckHeader(t.header, rules).value, |t.content|, t.content)
  }

  function TotalBytes(tiles: seq<Tile>): nat {
    if tiles == [] then 0 else TotalBytes(tiles[..|tiles|-1]) + |tiles[|tiles|-1].content|
  }

  /** Two members no file system would tell apart. */
  predicate Clash(a: MemberPath, b: MemberPath) {
    a.raw == b.raw || a.normalised == b.normalised || a.key == b.key
  }

  ghost predicate AllOk(tiles: seq<Tile>, rules: PathRules) {
    forall i :: 0 <= i < |tiles| ==> TileOk(tiles[i], rules)
  }

  function Members(tiles: seq<Tile>, rules: PathRules): (members: seq<Member>)
    requires AllOk(tiles, rules)
    ensures |members| == |tiles|
    ensures forall i :: 0 <= i < |tiles| ==> members[i] == MemberOf(tiles[i], rules)
  {
    seq(|tiles|, i requires 0 <= i < |tiles| => assert TileOk(tiles[i], rules); MemberOf(tiles[i], rules))
  }

  ghost predicate NoClash(members: seq<Member>) {
    forall i, k :: 0 <= i < k < |members| ==> !Clash(members[i].path, members[k].path)
  }

  /** An archive the scan is to accept. */
  ghost predicate ArchiveOk(tiles: seq<Tile>, maximum: int, rules: PathRules) {
    && (tiles == [] || |tiles| <= maximum) && AllOk(tiles, rules) && NoClash(Members(tiles, rules))
    && TotalBytes(tiles) <= 64 * 1024 * 1024
  }

  ghost predicate IsArchive(tiles: seq<Tile>, payload: seq<Byte>, maximum: int, rules: PathRules) {
    ArchiveOk(tiles, maximum, rules) && payload == Serialise(tiles)
  }

  /// ---------------------------------------------------------------- one tile

  /** The tile stands at the offset. */
  ghost predicate StandsAt(payload: seq<Byte>, offset: nat, t: Tile) {
    offset + |TileBytes(t)| <= |payload| && payload[offset..offset + |TileBytes(t)|] == TileBytes(t)
  }

  /** A tile read off the stream piece by piece. */
  lemma StandsAtIff(payload: seq<Byte>, offset: nat, t: Tile)
    requires |t.header| == BLOCK
    ensures var start, size := offset + BLOCK, |t.content|;
            StandsAt(payload, offset, t) <==>
              && start + PaddedSize(size) <= |payload|
              && payload[offset..start] == t.header
              && payload[start..start + size] == t.content
              && AllZero(payload[start + size..start + PaddedSize(size)])
  {
    var start, size := offset + BLOCK, |t.content|;
    var bytes := TileBytes(t);
    assert |bytes| == BLOCK + PaddedSize(size);
    if start + PaddedSize(size) <= |payload| {
      var here := payload[offset..offset + |bytes|];
      assert here[..BLOCK] == payload[offset..start];
      assert here[BLOCK..BLOCK + size] == payload[start..start + size];
      assert here[BLOCK + size..] == payload[start + size..start + PaddedSize(size)];
      assert here == here[..BLOCK] + here[BLOCK..BLOCK + size] + here[BLOCK + size..];
      assert bytes[..BLOCK] == t.header && bytes[BLOCK..BLOCK + size] == t.content;
      assert bytes[BLOCK + size..] == Zeros(PaddedSize(size) - size);
      if AllZero(here[BLOCK + size..]) { assert here[BLOCK + size..] == Zeros(PaddedSize(size) - size); }
    }
  }

  lemma HeaderNotZero(header: seq<Byte>, rules: PathRules)
    requires |header| == BLOCK && CheckHeader(header, rules).Ok?
    ensures header != Zeros(BLOCK)
  {
    assert header[257..265][0] == header[257];
  }

  lemma {:induction false} JoinedSplits(tiles: seq<Tile>, n: nat)
    requires n < |tiles|
    ensures Joined(tiles[..n]) + TileBytes(tiles[n]) <= Joined(tiles)
  {
    var front := tiles[..|tiles|-1];
    if n < |front| {
      JoinedSplits(front, n);
      assert front[..n] == tiles[..n];
    }
  }

  lemma {:induction false} TotalGrows(tiles: seq<Tile>, n: nat)
    requires n < |tiles|
    ensures TotalBytes(tiles[..n]) + |tiles[n].content| <= TotalBytes(tiles)
  {
    var front := tiles[..|tiles|-1];
    if n < |front| {
      TotalGrows(front, n);
      assert front[..n] == tiles[..n];
    }
  }

  /** After n tiles of an archive comes the next one, or the end. */
  lemma TileAt(tiles: seq<Tile>, n: nat, payload: seq<Byte>)
    requires n <= |tiles| && payload == Serialise(tiles)
    ensures var offset := |Joined(tiles[..n])|;
            && offset <= |payload| && payload[..offset] == Joined(tiles[..n])
            && if n < |tiles| then StandsAt(payload, offset, tiles[n]) else payload[offset..] == Zeros(2 * BLOCK)
  {
    if n < |tiles| {
      JoinedSplits(tiles, n);
      var before, bytes := Joined(tiles[..n]), TileBytes(tiles[n]);
      assert before + bytes <= payload;
      assert payload[..|before|] == (before + bytes)[..|before|];
      assert payload[|before|..|before| + |bytes|] == (before + bytes)[|before|..];
    } else {
      assert tiles[..n] == tiles;
    }
  }

  /// ---------------------------------------------------------------- the scan

  /** What the scan has gathered. */
  datatype Seen = Seen(raw: set<seq<Byte>>, normalised: set<seq<Byte>>, keys: set<seq<Byte>>) {
    predicate Clashes(p: MemberPath) { p.raw in raw || p.normalised in normalised || p.key in keys }

    function Add(p: MemberPath): Seen { Seen(raw + {p.raw}, normalised + {p.normalised}, keys + {p.key}) }
  }

  ghost predicate SeenIs(seen: Seen, members: seq<Member>) {
    && (forall x :: x in seen.raw <==> exists i :: 0 <= i < |members| && members[i].path.raw == x)
    && (forall x :: x in seen.normalised <==> exists i :: 0 <= i < |members| && members[i].path.normalised == x)
    && (forall x :: x in seen.keys <==> exists i :: 0 <= i < |members| && members[i].path.key == x)
  }

  lemma SeenClashes(seen: Seen, members: seq<Member>, p: MemberPath)
    requires SeenIs(seen, members)
    ensures seen.Clashes(p) <==> exists i :: 0 <= i < |members| && Clash(members[i].path, p)
  {
    if i :| 0 <= i < |members| && Clash(members[i].path, p) {
      var path := members[i].path;
      assert path.raw in seen.raw && path.normalised in seen.normalised && path.key in seen.keys;
    }
    if seen.Clashes(p) {
      if p.raw in seen.raw {
        var i :| 0 <= i < |members| && members[i].path.raw == p.raw;
        assert Clash(members[i].path, p);
      } else if p.normalised in seen.normalised {
        var i :| 0 <= i < |members| && members[i].path.normalised == p.normalised;
        assert Clash(members[i].path, p);
      } else {
        var i :| 0 <= i < |members| && members[i].path.key == p.key;
        assert Clash(members[i].path, p);
      }
    }
  }

  /** The tile may be taken next. */
  ghost predicate MayFollow(t: Tile, count: nat, maximum: int, seen: Seen, total: nat, rules: PathRules) {
    && TileOk(t, rules) && count < maximum && !seen.Clashes(CheckHeader(t.header, rules).value)
    && total + |t.content| <= MAX_TOTAL_FILE_BYTES
  }

  function HeaderAt(payload: seq<Byte>, offset: nat): seq<Byte>
    requires offset + BLOCK <= |payload|
  {
    payload[offset..offset + BLOCK]
  }

  lemma HeaderOfTile(payload: seq<Byte>, offset: nat)
    requires offset + BLOCK <= |payload|
    ensures forall t :: StandsAt(payload, offset, t) && |t.header| == BLOCK ==> t.header == HeaderAt(payload, offset)
  {
    forall t | StandsAt(payload, offset, t) && |t.header| == BLOCK ensures t.header == HeaderAt(payload, offset) {
      StandsAtIff(payload, offset, t);
    }
  }

  method ReadContent(payload: seq<Byte>, offset: nat, size: nat) returns (r: Result<seq<Byte>, TarError>)
    requires offset + BLOCK <= |payload|
    ensures r.Ok? ==> |r.value| == size && StandsAt(payload, offset, Tile(HeaderAt(payload, offset), r.value))
    ensures forall t :: StandsAt(payload, offset, t) && |t.header| == BLOCK && |t.content| == size ==>
      r == Ok(t.content)
  {
    var start := offset + BLOCK;
    var paddedEnd := start + PaddedSize(size);
    forall t | StandsAt(payload, offset, t) && |t.header| == BLOCK && |t.content| == size
      ensures paddedEnd <= |payload| && payload[start..start + size] == t.content
      ensures AllZero(payload[start + size..paddedEnd])
    {
      StandsAtIff(payload, offset, t);
    }
    if paddedEnd > |payload| { return Err(Truncated); }
    if !AllZero(payload[start + size..paddedEnd]) { return Err(DirtyPadding); }
    StandsAtIff(payload, offset, Tile(HeaderAt(payload, offset), payload[start..start + size]));
    r := Ok(payload[start..start + size]);
  }

  /** One member, its header not all zero: taken exactly when some acceptable tile stands here. */
  method ReadTile(payload: seq<Byte>, offset: nat, count: nat, maximum: int, seen: Seen, total: nat, rules: PathRules)
    returns (r: Result<Tile, TarError>)
    requires offset + BLOCK <= |payload|
    ensures r.Ok? ==> StandsAt(payload, offset, r.value) && MayFollow(r.value, count, maximum, seen, total, rules)
    ensures forall t :: StandsAt(payload, offset, t) && MayFollow(t, count, maximum, seen, total, rules) ==> r == Ok(t)
  {
    var header := HeaderAt(payload, offset);
    HeaderOfTile(payload, offset);
    if count >= maximum { return Err(TooManyMembers); }
    var path := CheckHeader(header, rules);
    if path.Err? { return Err(path.error); }
    if seen.Clashes(path.value) { return Err(Duplicate); }
    var size := SizeOf(header);
    if size == None { return Err(NotOctal); }
    if total + size.value > MAX_TOTAL_FILE_BYTES { return Err(TooLarge); }
    var content := ReadContent(payload, offset, size.value);
    if content.Err? { return Err(content.error); }
    r := Ok(Tile(header, content.value));
  }

  /** Every archive this stream could be begins with these tiles. */
  ghost predicate BeginsWith(tiles: seq<Tile>, payload: seq<Byte>, maximum: int, rules: PathRules) {
    forall all :: IsArchive(all, payload, maximum, rules) ==> tiles <= all
  }

  lemma PrefixClashes(all: seq<Tile>, n: nat, seen: Seen, rules: PathRules)
    requires AllOk(all, rules) && NoClash(Members(all, rules)) && n < |all|
    requires AllOk(all[..n], rules) && SeenIs(seen, Members(all[..n], rules))
    ensures TileOk(all[n], rules) && !seen.Clashes(CheckHeader(all[n].header, rules).value)
  {
    var members, before := Members(all, rules), Members(all[..n], rules);
    SeenClashes(seen, before, members[n].path);
    forall i | 0 <= i < n ensures !Clash(before[i].path, members[n].path) {
      assert before[i] == members[i];
    }
  }

  /** What stands at the offset when the stream is an archive beginning with these tiles. */
  lemma Onward(all: seq<Tile>, n: nat, payload: seq<Byte>, maximum: int, seen: Seen, rules: PathRules)
    requires IsArchive(all, payload, maximum, rules) && n <= |all|
    requires AllOk(all[..n], rules) && SeenIs(seen, Members(all[..n], rules))
    ensures var offset := |Joined(all[..n])|;
            && offset + BLOCK <= |payload|
            && if n < |all| then
                 && StandsAt(payload, offset, all[n])
                 && MayFollow(all[n], n, maximum, seen, TotalBytes(all[..n]), rules)
                 && HeaderAt(payload, offset) != Zeros(BLOCK)
               else payload[offset..] == Zeros(2 * BLOCK)
  {
    TileAt(all, n, payload);
    if n < |all| {
      PrefixClashes(all, n, seen, rules);
      TotalGrows(all, n);
      TileNotEnd(payload, |Joined(all[..n])|, all[n], rules);
    }
  }

  lemma TileNotEnd(payload: seq<Byte>, offset: nat, t: Tile, rules: PathRules)
    requires StandsAt(payload, offset, t) && TileOk(t, rules)
    ensures offset + BLOCK <= |payload| && HeaderAt(payload, offset) != Zeros(BLOCK)
  {
    StandsAtIff(payload, offset, t);
    HeaderNotZero(t.header, rules);
  }

  /** What has been read so far, and that no archive could have begun otherwise. */
  ghost predicate Reading(tiles: seq<Tile>, payload: seq<Byte>, offset: nat, maximum: int, seen: Seen,
                          rules: PathRules)
  {
    && ArchiveOk(tiles, maximum, rules)
    && ReadUpTo(tiles, payload, offset)
    && SeenIs(seen, Members(tiles, rules))
    && BeginsWith(tiles, payload, maximum, rules)
  }

  ghost predicate ReadUpTo(tiles: seq<Tile>, payload: seq<Byte>, offset: nat) {
    offset == |Joined(tiles)| <= |payload| && payload[..offset] == Joined(tiles)
  }

  ghost predicate GoesOn(all: seq<Tile>, tiles: seq<Tile>, payload: seq<Byte>, offset: nat, maximum: int, seen: Seen,
                         rules: PathRules)
  {
    && offset + BLOCK <= |payload|
    && if tiles == all then payload[offset..] == Zeros(2 * BLOCK)
       else
         && |tiles| < |all| && HeaderAt(payload, offset) != Zeros(BLOCK)
         && StandsAt(payload, offset, all[|tiles|])
         && MayFollow(all[|tiles|], |tiles|, maximum, seen, TotalBytes(tiles), rules)
  }

  lemma OneGoesOn(all: seq<Tile>, tiles: seq<Tile>, payload: seq<Byte>, offset: nat, maximum: int, seen: Seen,
                  rules: PathRules)
    requires IsArchive(all, payload, maximum, rules) && tiles <= all
    requires AllOk(tiles, rules) && SeenIs(seen, Members(tiles, rules)) && offset == |Joined(tiles)|
    ensures GoesOn(all, tiles, payload, offset, maximum, seen, rules)
  {
    assert all[..|tiles|] == tiles;
    if |tiles| == |all| { assert all == tiles; }
    Onward(all, |tiles|, payload, maximum, seen, rules);
  }

  ghost predicate NoArchive(payload: seq<Byte>, maximum: int, rules: PathRules) {
    forall all :: !IsArchive(all, payload, maximum, rules)
  }

  ghost predicate NothingFollows(tiles: seq<Tile>, payload: seq<Byte>, offset: nat, maximum: int, seen: Seen,
                                 rules: PathRules)
  {
    forall t :: !(StandsAt(payload, offset, t) && MayFollow(t, |tiles|, maximum, seen, TotalBytes(tiles), rules))
  }

  /** Where neither a tile nor the end can follow, the stream is no archive. */
  lemma Refuse(tiles: seq<Tile>, payload: seq<Byte>, offset: nat, maximum: int, seen: Seen, rules: PathRules)
    requires Reading(tiles, payload, offset, maximum, seen, rules)
    requires offset + BLOCK <= |payload| ==>
      if HeaderAt(payload, offset) == Zeros(BLOCK) then payload[offset..] != Zeros(2 * BLOCK)
      else NothingFollows(tiles, payload, offset, maximum, seen, rules)
    ensures NoArchive(payload, maximum, rules)
  {
    if offset + BLOCK <= |payload| && HeaderAt(payload, offset) != Zeros(BLOCK) { EndNotHere(payload, offset); }
    forall all ensures !IsArchive(all, payload, maximum, rules) {
      if IsArchive(all, payload, maximum, rules) {
        OneGoesOn(all, tiles, payload, offset, maximum, seen, rules);
      }
    }
  }

  lemma AppendMember(tiles: seq<Tile>, t: Tile, maximum: int, seen: Seen, rules: PathRules)
    requires ArchiveOk(tiles, maximum, rules) && SeenIs(seen, Members(tiles, rules))
    requires MayFollow(t, |tiles|, maximum, seen, TotalBytes(tiles), rules)
    ensures ArchiveOk(tiles + [t], maximum, rules)
    ensures Members(tiles + [t], rules) == Members(tiles, rules) + [MemberOf(t, rules)]
    ensures SeenIs(seen.Add(MemberOf(t, rules).path), Members(tiles + [t], rules))
    ensures TotalBytes(tiles + [t]) == TotalBytes(tiles) + |t.content|
  {
    var all, members, member := tiles + [t], Members(tiles, rules), MemberOf(t, rules);
    assert all[..|all|-1] == tiles;
    SeenClashes(seen, members, member.path);
    forall i | 0 <= i < |all| ensures TileOk(all[i], rules) {
    }
    assert Members(all, rules) == members + [member];
    SeenGrows(seen, members, member);
  }

  lemma SeenGrows(seen: Seen, members: seq<Member>, member: Member)
    requires SeenIs(seen, members)
    ensures SeenIs(seen.Add(member.path), members + [member])
  {
    var all := members + [member];
    forall x ensures x in seen.Add(member.path).raw <==> exists i :: 0 <= i < |all| && all[i].path.raw == x {
      OneMore(members, member, (m: Member) => m.path.raw, x);
    }
    forall x
      ensures x in seen.Add(member.path).normalised <==> exists i :: 0 <= i < |all| && all[i].path.normalised == x
    {
      OneMore(members, member, (m: Member) => m.path.normalised, x);
    }
    forall x ensures x in seen.Add(member.path).keys <==> exists i :: 0 <= i < |all| && all[i].path.key == x {
      OneMore(members, member, (m: Member) => m.path.key, x);
    }
  }

  lemma OneMore<T>(members: seq<Member>, member: Member, f: Member -> T, x: T)
    ensures (exists i :: 0 <= i < |members + [member]| && f((members + [member])[i]) == x) <==>
            f(member) == x || exists i :: 0 <= i < |members| && f(members[i]) == x
  {
    var all := members + [member];
    assert all[|members|] == member;
    if i :| 0 <= i < |members| && f(members[i]) == x {
      assert f(all[i]) == x;
    }
    if i :| 0 <= i < |all| && f(all[i]) == x {
      if i < |members| { assert f(members[i]) == x; }
    }
  }

  ghost predicate OnlyNext(t: Tile, payload: seq<Byte>, offset: nat, count: nat, maximum: int, seen: Seen,
                           total: nat, rules: PathRules)
  {
    forall u :: StandsAt(payload, offset, u) && MayFollow(u, count, maximum, seen, total, rules) ==> u == t
  }

  lemma NextIsRead(all: seq<Tile>, tiles: seq<Tile>, t: Tile, payload: seq<Byte>, offset: nat, maximum: int,
                   seen: Seen, rules: PathRules)
    requires GoesOn(all, tiles, payload, offset, maximum, seen, rules) && tiles <= all
    requires HeaderAt(payload, offset) != Zeros(BLOCK)
    requires OnlyNext(t, payload, offset, |tiles|, maximum, seen, TotalBytes(tiles), rules)
    ensures tiles + [t] <= all
  {
    EndNotHere(payload, offset);
    assert all[|tiles|] == t;
  }

  /** A tile read at the offset belongs to every archive the stream could be. */
  lemma ReadOn(tiles: seq<Tile>, t: Tile, payload: seq<Byte>, offset: nat, maximum: int, seen: Seen, rules: PathRules)
    requires Reading(tiles, payload, offset, maximum, seen, rules)
    requires offset + BLOCK <= |payload| && HeaderAt(payload, offset) != Zeros(BLOCK)
    requires StandsAt(payload, offset, t) && MayFollow(t, |tiles|, maximum, seen, TotalBytes(tiles), rules)
    requires OnlyNext(t, payload, offset, |tiles|, maximum, seen, TotalBytes(tiles), rules)
    ensures Reading(tiles + [t], payload, offset + |TileBytes(t)|, maximum, seen.Add(MemberOf(t, rules).path), rules)
    ensures Members(tiles + [t], rules) == Members(tiles, rules) + [MemberOf(t, rules)]
    ensures TotalBytes(tiles + [t]) == TotalBytes(tiles) + |t.content|
  {
    AppendMember(tiles, t, maximum, seen, rules);
    ReadsUpTo(tiles, t, payload, offset);
    StillBegins(tiles, t, payload, offset, maximum, seen, rules);
  }

  lemma ReadsUpTo(tiles: seq<Tile>, t: Tile, payload: seq<Byte>, offset: nat)
    requires ReadUpTo(tiles, payload, offset) && StandsAt(payload, offset, t)
    ensures ReadUpTo(tiles + [t], payload, offset + |TileBytes(t)|)
  {
    assert (tiles + [t])[..|tiles|] == tiles;
    OneTileMore(payload, offset, Joined(tiles), TileBytes(t));
  }

  lemma StillBegins(tiles: seq<Tile>, t: Tile, payload: seq<Byte>, offset: nat, maximum: int, seen: Seen,
                    rules: PathRules)
    requires Reading(tiles, payload, offset, maximum, seen, rules)
    requires offset + BLOCK <= |payload| && HeaderAt(payload, offset) != Zeros(BLOCK)
    requires OnlyNext(t, payload, offset, |tiles|, maximum, seen, TotalBytes(tiles), rules)
    ensures BeginsWith(tiles + [t], payload, maximum, rules)
  {
    forall all | IsArchive(all, payload, maximum, rules) ensures tiles + [t] <= all {
      OneGoesOn(all, tiles, payload, offset, maximum, seen, rules);
      NextIsRead(all, tiles, t, payload, offset, maximum, seen, rules);
    }
  }

  lemma EndNotHere(payload: seq<Byte>, offset: nat)
    requires offset + BLOCK <= |payload| && HeaderAt(payload, offset) != Zeros(BLOCK)
    ensures payload[offset..] != Zeros(2 * BLOCK)
  {
    assert HeaderAt(payload, offset) == payload[offset..][..BLOCK];
    assert Zeros(2 * BLOCK)[..BLOCK] == Zeros(BLOCK);
  }

  lemma OneTileMore(payload: seq<Byte>, offset: nat, before: seq<Byte>, bytes: seq<Byte>)
    requires offset + |bytes| <= |payload| && payload[..offset] == before && payload[offset..offset + |bytes|] == bytes
    ensures payload[..offset + |bytes|] == before + bytes
  {
  }

  /** The scan accepts exactly the streams of acceptable archives, and returns the members and the
      total size of the archive. */
  method Scan(payload: seq<Byte>, maximum: int, rules: PathRules) returns (r: Result<(seq<Member>, nat), TarError>)
    ensures r.Ok? ==> exists tiles ::
      IsArchive(tiles, payload, maximum, rules) && r.value == (Members(tiles, rules), TotalBytes(tiles))
    ensures r.Err? ==> forall tiles :: !IsArchive(tiles, payload, maximum, rules)
  {
    var members: seq<Member> := [];
    var seen := Seen({}, {}, {});
    var total: nat, offset: nat := 0, 0;
    ghost var tiles: seq<Tile> := [];
    while true
      invariant Reading(tiles, payload, offset, maximum, seen, rules)
      invariant members == Members(tiles, rules) && total == TotalBytes(tiles)
      decreases |payload| - offset
    {
      if offset + BLOCK > |payload| {
        Refuse(tiles, payload, offset, maximum, seen, rules);
        return Err(MissingEnd);
      }
      var header := HeaderAt(payload, offset);
      if header == Zeros(BLOCK) {
        var problem := CheckEnd(payload, offset, tiles);
        if problem.Some? {
          Refuse(tiles, payload, offset, maximum, seen, rules);
          return Err(problem.value);
        }
        break;
      }
      var read := ReadTile(payload, offset, |members|, maximum, seen, total, rules);
      if read.Err? {
        Refuse(tiles, payload, offset, maximum, seen, rules);
        return Err(read.error);
      }
      var tile := read.value;
      ReadOn(tiles, tile, payload, offset, maximum, seen, rules);
      tiles := tiles + [tile];
      members := members + [MemberOf(tile, rules)];
      seen := seen.Add(MemberOf(tile, rules).path);
      total := total + |tile.content|;
      offset := offset + |TileBytes(tile)|;
    }
    r := Ok((members, total));
  }

  /** The end of the stream, its first zero block found. */
  method CheckEnd(payload: seq<Byte>, offset: nat, ghost tiles: seq<Tile>) returns (problem: Option<TarError>)
    requires offset + BLOCK <= |payload| && HeaderAt(payload, offset) == Zeros(BLOCK)
    requires payload[..offset] == Joined(tiles)
    ensures problem == None <==> payload[offset..] == Zeros(2 * BLOCK)
    ensures problem == None ==> payload == Serialise(tiles)
  {
    assert payload == payload[..offset] + payload[offset..];
    if offset + 2 * BLOCK != |payload| { return Some(NotTwoEndBlocks); }
    ghost var second := payload[offset + BLOCK..offset + 2 * BLOCK];
    assert payload[offset..] == HeaderAt(payload, offset) + second;
    assert Zeros(BLOCK) + Zeros(BLOCK) == Zeros(2 * BLOCK);
    assert payload[offset..][BLOCK..] == second && Zeros(2 * BLOCK)[BLOCK..] == Zeros(BLOCK);
    if payload[offset + BLOCK..offset + 2 * BLOCK] != Zeros(BLOCK) { return Some(OneEndBlock); }
    problem := None;
  }

  /** A stream has one reading at most. */
  lemma ArchiveUnique(tiles: seq<Tile>, others: seq<Tile>, payload: seq<Byte>, maximum: int, rules: PathRules)
    requires IsArchive(tiles, payload, maximum, rules) && IsArchive(others, payload, maximum, rules)
    ensures tiles == others
  {
    SamePrefix(tiles, others, payload, rules, |tiles|);
    SamePrefix(others, tiles, payload, rules, |others|);
    assert tiles[..|tiles|] == tiles && others[..|others|] == others;
  }

  lemma {:induction false} SamePrefix(tiles: seq<Tile>, others: seq<Tile>, payload: seq<Byte>, rules: PathRules, n: nat)
    requires payload == Serialise(tiles) == Serialise(others) && AllOk(tiles, rules) && AllOk(others, rules)
    requires n <= |tiles|
    ensures n <= |others| && tiles[..n] == others[..n]
  {
    if n > 0 {
      SamePrefix(tiles, others, payload, rules, n - 1);
      SameNext(tiles, others, payload, rules, n - 1);
      LongerPrefix(tiles, others, n - 1);
    }
  }

  lemma LongerPrefix<T>(a: seq<T>, b: seq<T>, n: nat)
    requires n < |a| && n < |b| && a[..n] == b[..n] && a[n] == b[n]
    ensures a[..n+1] == b[..n+1]
  {
  }

  lemma SameNext(tiles: seq<Tile>, others: seq<Tile>, payload: seq<Byte>, rules: PathRules, n: nat)
    requires payload == Serialise(tiles) == Serialise(others) && AllOk(tiles, rules) && AllOk(others, rules)
    requires n < |tiles| && n <= |others| && tiles[..n] == others[..n]
    ensures n < |others| && tiles[n] == others[n]
  {
    var offset := |Joined(tiles[..n])|;
    TileAt(tiles, n, payload);
    TileAt(others, n, payload);
    assert TileOk(tiles[n], rules);
    TileNotEnd(payload, offset, tiles[n], rules);
    EndNotHere(payload, offset);
    assert TileOk(others[n], rules);
    SameTile(payload, offset, tiles[n], others[n], rules);
  }

  lemma SameTile(payload: seq<Byte>, offset: nat, t: Tile, u: Tile, rules: PathRules)
    requires StandsAt(payload, offset, t) && StandsAt(payload, offset, u) && TileOk(t, rules) && TileOk(u, rules)
    ensures t == u
  {
    StandsAtIff(payload, offset, t);
    StandsAtIff(payload, offset, u);
  }

  /// ---------------------------------------------------------------- written archives

  datatype Source = Source(fields: Fields, content: seq<Byte>)

  predicate SourceOk(s: Source, rules: PathRules) {
    && s.fields.Fits() && s.fields.size == |s.content| && s.fields.name != []
    && NoNul(s.fields.name) && NoNul(s.fields.prefix) && rules.isText(s.fields.name) && rules.isText(s.fields.prefix)
    && PathOf(JoinPath(s.fields.prefix, s.fields.name), rules).Ok?
  }

  function Written(s: Source): Tile
    requires s.fields.Fits()
  {
    Tile(s.fields.Write(), s.content)
  }

  function Expected(s: Source, rules: PathRules): Member
    requires SourceOk(s, rules)
  {
    Member(PathOf(JoinPath(s.fields.prefix, s.fields.name), rules).value, |s.content|, s.content)
  }

  ghost predicate SourcesOk(sources: seq<Source>, rules: PathRules) {
    forall i :: 0 <= i < |sources| ==> SourceOk(sources[i], rules)
  }

  ghost predicate Writes(tiles: seq<Tile>, sources: seq<Source>, rules: PathRules)
    requires SourcesOk(sources, rules)
  {
    |tiles| == |sources| && forall i :: 0 <= i < |tiles| ==>
      SourceOk(sources[i], rules) && tiles[i] == Written(sources[i])
  }

  ghost predicate NoSourceClash(sources: seq<Source>, rules: PathRules)
    requires SourcesOk(sources, rules)
  {
    forall i, k :: 0 <= i < k < |sources| ==>
      SourceOk(sources[i], rules) && SourceOk(sources[k], rules)
      && !Clash(Expected(sources[i], rules).path, Expected(sources[k], rules).path)
  }

  lemma WrittenTileOk(s: Source, rules: PathRules)
    requires SourceOk(s, rules)
    ensures TileOk(Written(s), rules) && MemberOf(Written(s), rules) == Expected(s, rules)
  {
    WrittenHeaderReads(s.fields, rules);
  }

  /** A written archive of members that do not clash and stay within the limits is accepted, with
      exactly the members that were written. */
  lemma WrittenArchiveReads(tiles: seq<Tile>, sources: seq<Source>, maximum: int, rules: PathRules)
    requires SourcesOk(sources, rules) && Writes(tiles, sources, rules) && NoSourceClash(sources, rules)
    requires |tiles| <= maximum && TotalBytes(tiles) <= MAX_TOTAL_FILE_BYTES
    ensures IsArchive(tiles, Serialise(tiles), maximum, rules)
    ensures |Members(tiles, rules)| == |sources|
    ensures forall i :: 0 <= i < |sources| ==>
      SourceOk(sources[i], rules) && Members(tiles, rules)[i] == Expected(sources[i], rules)
  {
    forall i | 0 <= i < |tiles|
      ensures TileOk(tiles[i], rules) && MemberOf(tiles[i], rules) == Expected(sources[i], rules)
    {
      assert SourceOk(sources[i], rules);
      WrittenTileOk(sources[i], rules);
    }
  }
}
