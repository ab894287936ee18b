/** `userIDToName` (tests/main.go:33-44): one lookup per identifier, the
    answer written into a map under that identifier; a failed lookup writes
    the fallback name and the loop goes on with the next identifier. */
module Names {
  import opened SlackApi

  /** `userIDToName`. Every identifier of `ids` becomes a key and nothing
      else does; its value is the looked-up name, or "unknown" when the
      lookup failed, independently of what the other lookups answered. */
  method UserIdToName(getUserName: GetUserName, ids: seq<UserId>) returns (names: map<UserId, string>)
    ensures names.Keys == set id | id in ids
    ensures forall id :: id in names && getUserName(id).Ok? ==> names[id] == getUserName(id).value
    ensures forall id :: id in names && getUserName(id).Err? ==> names[id] == UnknownName
  {
    names := map[];
    for i := 0 to |ids|
      invariant names.Keys == set id | id in ids[..i]
      invariant forall id :: id in names && getUserName(id).Ok? ==> names[id] == getUserName(id).value
      invariant forall id :: id in names && getUserName(id).Err? ==> names[id] == UnknownName
    {
      assert ids[..i + 1] == ids[..i] + [ids[i]];
      var answer := getUserName(ids[i]);
      if answer.Ok? {
        names := names[ids[i] := answer.value];
      } else {
        names := names[ids[i] := UnknownName];
      }
    }
    assert ids[..|ids|] == ids;
  }
}
