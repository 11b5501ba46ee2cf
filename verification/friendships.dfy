/** The two friendship tables: `HBaseFollowing` (the users a user follows,
    keyed by the follower) and `HBaseFollower` (the followers of a user,
    keyed by the followed user). Both store one edge per row. */
module Friendships {
  import opened Wrappers
  import opened Sequences
  import opened Strings
  import opened Fields
  import opened HBaseModel

  /** `HBaseFollowing`: reversed `from_user_id` and `created_at` in the key,
      `to_user_id` in column family 'cf'. */
  const Following: Schema := Schema(
    [ IntegerField("from_user_id", reverse := true),
      TimeStampField("created_at"),
      IntegerField("to_user_id", columnFamily := Some("cf")) ],
    ["from_user_id", "created_at"],
    Some("twitter_following"))

  /** `HBaseFollower`: the mirror image, keyed by the followed user. */
  const Follower: Schema := Schema(
    [ IntegerField("to_user_id", reverse := true),
      TimeStampField("created_at"),
      IntegerField("from_user_id", columnFamily := Some("cf")) ],
    ["to_user_id", "created_at"],
    Some("twitter_followers"))

  /** One follow edge, as the keyword arguments of `create`. */
  function Edge(fromUserId: nat, toUserId: nat, createdAt: int): Data {
    map["from_user_id" := IntVal(fromUserId), "to_user_id" := IntVal(toUserId), "created_at" := IntVal(createdAt)]
  }

  /** The first key segment of a user: the id zero-padded to 16 and reversed. */
  function UserSegment(userId: nat): string {
    Reverse(ZeroPad(NatToString(userId), IntWidth))
  }

  /** The key of the row that records an edge of `userId` at `createdAt`. */
  function EdgeKey(userId: nat, createdAt: int): string {
    UserSegment(userId) + [Delimiter] + IntToString(createdAt)
  }

  /** The stored form of the other user's id: zero-padded, not reversed. */
  function IdCell(userId: nat): string {
    ZeroPad(NatToString(userId), IntWidth)
  }

  function TableName(name: string, testing: bool): string {
    if testing then "test_" + name else name
  }

  /** In both schemas the row-key fields, in declaration order, are exactly
      `Meta.row_key`, so the key is read back in the order it was written. */
  lemma FollowingKeyFields()
    ensures RowKeyFields(Following.fields) == Following.fields[..2]
  {
    var fs := Following.fields;
    assert fs[1..][1..] == [fs[2]] && fs[1..][1..][1..] == [];
    assert RowKeyFields(fs[1..][1..]) == [];
    assert RowKeyFields(fs[1..]) == [fs[1]];
    assert RowKeyFields(fs) == [fs[0], fs[1]] == fs[..2];
  }

  /** A three-field schema keyed by its first two fields, with distinct
      names and a ':'-free column family on the third, is consistent. */
  lemma KeyedByFirstTwo(s: Schema)
    requires |s.fields| == 3
    requires s.fields[0].name != s.fields[1].name && s.fields[1].name != s.fields[2].name
    requires s.fields[0].name != s.fields[2].name
    requires RowKeyFields(s.fields) == s.fields[..2]
    requires s.rowKey == [s.fields[0].name, s.fields[1].name]
    requires !IsRowKeyField(s.fields[2]) ==> Delimiter !in s.fields[2].columnFamily.value
    ensures ConsistentSchema(s)
  {
    var fs := s.fields;
    assert Names(fs[..2]) == [fs[0].name, fs[1].name];
    assert fs[..2] == [fs[0], fs[1]];
    forall f | f in fs && !IsRowKeyField(f)
      ensures Delimiter !in f.columnFamily.value
    {
      assert f in fs[..2] || f == fs[2];
    }
  }

  lemma FollowingConsistent()
    ensures ConsistentSchema(Following)
    ensures RowKeyFields(Following.fields) == Following.fields[..2]
  {
    var fs := Following.fields;
    FollowingKeyFields();
    assert fs[0].name[0] != fs[1].name[0] && fs[1].name[0] != fs[2].name[0];
    assert fs[0].name[0] != fs[2].name[0];
    assert fs[2].columnFamily.value == "cf";
    KeyedByFirstTwo(Following);
  }

  lemma FollowerKeyFields()
    ensures RowKeyFields(Follower.fields) == Follower.fields[..2]
  {
    var fs := Follower.fields;
    assert fs[1..][1..] == [fs[2]] && fs[1..][1..][1..] == [];
    assert RowKeyFields(fs[1..][1..]) == [];
    assert RowKeyFields(fs[1..]) == [fs[1]];
    assert RowKeyFields(fs) == [fs[0], fs[1]] == fs[..2];
  }

  lemma FollowerConsistent()
    ensures ConsistentSchema(Follower)
    ensures RowKeyFields(Follower.fields) == Follower.fields[..2]
  {
    var fs := Follower.fields;
    FollowerKeyFields();
    assert fs[0].name[0] != fs[1].name[0] && fs[1].name[0] != fs[2].name[0];
    assert fs[0].name[0] != fs[2].name[0];
    assert fs[2].columnFamily.value == "cf";
    KeyedByFirstTwo(Follower);
  }

  /** A record keyed by the three fields of a schema, each value fitting its
      field, fits the schema. */
  lemma ThreeFieldsFit(s: Schema, d: Data)
    requires |s.fields| == 3
    requires forall k :: k in d ==> k == s.fields[0].name || k == s.fields[1].name || k == s.fields[2].name
    requires s.fields[0].name in d && Fits(s.fields[0], d[s.fields[0].name])
    requires s.fields[1].name in d && Fits(s.fields[1], d[s.fields[1].name])
    requires s.fields[2].name in d && Fits(s.fields[2], d[s.fields[2].name])
    ensures InstanceFits(s, d)
  {
    var fs := s.fields;
    assert forall f :: f in fs ==> f == fs[0] || f == fs[1] || f == fs[2];
    forall k | k in d
      ensures k in Names(fs)
    {
      assert Names(fs)[0] == fs[0].name && Names(fs)[1] == fs[1].name && Names(fs)[2] == fs[2].name;
    }
  }

  /** Every edge of naturals fits both schemas unchanged. */
  lemma FollowingFits(fromUserId: nat, toUserId: nat, createdAt: int)
    ensures InstanceFits(Following, Edge(fromUserId, toUserId, createdAt))
  {
    var fs := Following.fields;
    assert fs[0].name == "from_user_id" && fs[1].name == "created_at" && fs[2].name == "to_user_id";
    ThreeFieldsFit(Following, Edge(fromUserId, toUserId, createdAt));
  }

  lemma FollowerFits(fromUserId: nat, toUserId: nat, createdAt: int)
    ensures InstanceFits(Follower, Edge(fromUserId, toUserId, createdAt))
  {
    var fs := Follower.fields;
    assert fs[0].name == "to_user_id" && fs[1].name == "created_at" && fs[2].name == "from_user_id";
    ThreeFieldsFit(Follower, Edge(fromUserId, toUserId, createdAt));
  }

  lemma UserSegmentIsSerializedId(userId: nat)
    ensures UserSegment(userId) == SerializeField(Following.fields[0], IntVal(userId))
    ensures UserSegment(userId) == SerializeField(Follower.fields[0], IntVal(userId))
    ensures IdCell(userId) == SerializeField(Following.fields[2], IntVal(userId))
    ensures IdCell(userId) == SerializeField(Follower.fields[2], IntVal(userId))
  {
  }

  /** The user segment is free of ':' and, for ids below 10^16, exactly 16 wide. */
  lemma UserSegmentShape(userId: nat)
    ensures Delimiter !in UserSegment(userId)
    ensures userId < Pow10(IntWidth) ==> |UserSegment(userId)| == IntWidth
  {
    UserSegmentIsSerializedId(userId);
    if userId < Pow10(IntWidth) {
      NatToStringLength(userId, IntWidth);
    }
  }

  /** The rows of a schema shaped like both friendship tables: two row-key
      fields followed by one column field. */
  lemma KeyKeyColumnRow(a: Field, b: Field, c: Field, d: Data)
    requires IsRowKeyField(a) && IsRowKeyField(b) && !IsRowKeyField(c)
    requires SegmentOk(a, d) && SegmentOk(b, d) && c.name in d
    ensures RowKeySegments([a, b, c], d) == Ok([SerializeField(a, d[a.name]), SerializeField(b, d[b.name])])
    ensures SerializeRowData([a, b, c], d) == [(ColumnKey(c), SerializeField(c, d[c.name]))]
  {
    var fs := [a, b, c];
    assert fs[1..] == [b, c] && fs[1..][1..] == [c] && fs[1..][1..][1..] == [];
    assert RowKeySegments([c], d) == Ok([]);
    assert [b, c][1..] == [c];
    assert [SerializeField(b, d[b.name])] + [] == [SerializeField(b, d[b.name])];
    assert RowKeySegments([b, c], d) == Ok([SerializeField(b, d[b.name])]);
    assert [SerializeField(a, d[a.name])] + [SerializeField(b, d[b.name])]
      == [SerializeField(a, d[a.name]), SerializeField(b, d[b.name])];
    assert SerializeRowData([c], d) == [(ColumnKey(c), SerializeField(c, d[c.name]))];
  }

  /** The column names of the two tables. */
  lemma ColumnKeys()
    ensures ColumnKey(Following.fields[2]) == "cf:to_user_id"
    ensures ColumnKey(Follower.fields[2]) == "cf:from_user_id"
  {
    var c := "cf" + [Delimiter];
    assert c == "cf:";
    assert c + "to_user_id" == "cf:to_user_id";
    assert c + "from_user_id" == "cf:from_user_id";
  }

  /** `HBaseFollowing.create`: the key is the reversed padded follower id and
      the timestamp, and the only column is 'cf:to_user_id'. */
  lemma FollowingSave(fromUserId: nat, toUserId: nat, createdAt: int, testing: bool)
    ensures Save(Following, testing, Edge(fromUserId, toUserId, createdAt))
      == Ok(PutRequest(TableName("twitter_following", testing),
                       EdgeKey(fromUserId, createdAt),
                       [("cf:to_user_id", IdCell(toUserId))]))
  {
    var d := Edge(fromUserId, toUserId, createdAt);
    var fs := Following.fields;
    UserSegmentIsSerializedId(fromUserId);
    UserSegmentIsSerializedId(toUserId);
    UserSegmentShape(fromUserId);
    KeyKeyColumnRow(fs[0], fs[1], fs[2], d);
    assert fs == [fs[0], fs[1], fs[2]];
    ColumnKeys();
    var segments := [UserSegment(fromUserId), IntToString(createdAt)];
    assert Join(Delimiter, segments) == EdgeKey(fromUserId, createdAt) by {
      assert segments[1..] == [IntToString(createdAt)];
    }
    assert RowKeySegments(fs, d) == Ok(segments);
    assert SerializeRowKey(Following, d) == Ok(EdgeKey(fromUserId, createdAt));
    assert SerializeRowData(fs, d) == [("cf:to_user_id", IdCell(toUserId))];
    assert GetTableName(Following, testing) == Ok(TableName("twitter_following", testing));
  }

  /** `HBaseFollower.create`: keyed by the followed user, 'cf:from_user_id' stored. */
  lemma FollowerSave(fromUserId: nat, toUserId: nat, createdAt: int, testing: bool)
    ensures Save(Follower, testing, Edge(fromUserId, toUserId, createdAt))
      == Ok(PutRequest(TableName("twitter_followers", testing),
                       EdgeKey(toUserId, createdAt),
                       [("cf:from_user_id", IdCell(fromUserId))]))
  {
    var d := Edge(fromUserId, toUserId, createdAt);
    var fs := Follower.fields;
    UserSegmentIsSerializedId(fromUserId);
    UserSegmentIsSerializedId(toUserId);
    UserSegmentShape(toUserId);
    KeyKeyColumnRow(fs[0], fs[1], fs[2], d);
    assert fs == [fs[0], fs[1], fs[2]];
    ColumnKeys();
    var segments := [UserSegment(toUserId), IntToString(createdAt)];
    assert Join(Delimiter, segments) == EdgeKey(toUserId, createdAt) by {
      assert segments[1..] == [IntToString(createdAt)];
    }
    assert RowKeySegments(fs, d) == Ok(segments);
    assert SerializeRowKey(Follower, d) == Ok(EdgeKey(toUserId, createdAt));
    assert SerializeRowData(fs, d) == [("cf:from_user_id", IdCell(fromUserId))];
    assert GetTableName(Follower, testing) == Ok(TableName("twitter_followers", testing));
  }

  /** A following row reads back as the edge it was written from. */
  lemma FollowingRoundTrip(fromUserId: nat, toUserId: nat, createdAt: int)
    ensures InitFromRow(Following, EdgeKey(fromUserId, createdAt), [("cf:to_user_id", IdCell(toUserId))])
      == Ok(Some(Edge(fromUserId, toUserId, createdAt)))
  {
    FollowingConsistent();
    FollowingFits(fromUserId, toUserId, createdAt);
    FollowingSave(fromUserId, toUserId, createdAt, false);
    SaveThenInitFromRow(Following, false, Edge(fromUserId, toUserId, createdAt));
  }

  /** A follower row reads back as the edge it was written from. */
  lemma FollowerRoundTrip(fromUserId: nat, toUserId: nat, createdAt: int)
    ensures InitFromRow(Follower, EdgeKey(toUserId, createdAt), [("cf:from_user_id", IdCell(fromUserId))])
      == Ok(Some(Edge(fromUserId, toUserId, createdAt)))
  {
    FollowerConsistent();
    FollowerFits(fromUserId, toUserId, createdAt);
    FollowerSave(fromUserId, toUserId, createdAt, false);
    SaveThenInitFromRow(Follower, false, Edge(fromUserId, toUserId, createdAt));
  }

  /** Two ':'-free segments each followed by ':' agree as prefixes only when equal. */
  lemma {:induction false} DelimitedPrefix(a: string, b: string, rest: string)
    requires Delimiter !in a && Delimiter !in b
    ensures a + [Delimiter] <= b + [Delimiter] + rest <==> a == b
  {
    var p := a + [Delimiter];
    var k := b + [Delimiter] + rest;
    if p <= k {
      FirstDelimiter(a, []);
      FirstDelimiter(b, rest);
      assert p[|a|] == Delimiter;
      assert |a| == |b|;
      assert a == p[..|a|] == k[..|a|] == b;
    }
  }

  /** In a ':'-free segment followed by ':', that ':' is the first one. */
  lemma FirstDelimiter(a: string, rest: string)
    requires Delimiter !in a
    ensures (a + [Delimiter] + rest)[|a|] == Delimiter
    ensures forall j :: 0 <= j < |a| ==> (a + [Delimiter] + rest)[j] != Delimiter
  {
  }

  /** A scan over the rows that start with one user's segment and ':' sees
      that user's rows and no other user's: the segment prefix identifies
      the user. */
  lemma UserPrefixSeparates(userId: nat, other: nat, createdAt: int)
    ensures UserSegment(userId) + [Delimiter] <= EdgeKey(other, createdAt) <==> userId == other
  {
    UserSegmentShape(userId);
    UserSegmentShape(other);
    DelimitedPrefix(UserSegment(userId), UserSegment(other), IntToString(createdAt));
    UserSegmentIsSerializedId(userId);
    UserSegmentIsSerializedId(other);
    SerializeFieldInjective(Following.fields[0], IntVal(userId), IntVal(other));
  }

  /** For ids below 10^16 the first 16 characters of a key are the user segment,
      so keys share their first segment exactly when they share the user. */
  lemma FixedWidthUserSegment(userId: nat, other: nat, createdAt: int, otherCreatedAt: int)
    requires userId < Pow10(IntWidth) && other < Pow10(IntWidth)
    ensures EdgeKey(userId, createdAt)[..IntWidth] == UserSegment(userId)
    ensures EdgeKey(userId, createdAt)[..IntWidth] == EdgeKey(other, otherCreatedAt)[..IntWidth] <==> userId == other
  {
    UserSegmentShape(userId);
    UserSegmentShape(other);
    assert EdgeKey(userId, createdAt)[..IntWidth] == UserSegment(userId);
    assert EdgeKey(other, otherCreatedAt)[..IntWidth] == UserSegment(other);
    UserSegmentIsSerializedId(userId);
    UserSegmentIsSerializedId(other);
    SerializeFieldInjective(Following.fields[0], IntVal(userId), IntVal(other));
  }
}
