/** The keys under which the executor files operations in its ledger. */
module OperationKeys {

  predicate NulFree(s: string) {
    '\0' !in s
  }

  function WorkspaceKey(hostId: string, workspaceRoot: string): string {
    hostId + "\0" + workspaceRoot
  }

  function OperationKey(hostId: string, workspaceRoot: string, operationId: string): string {
    WorkspaceKey(hostId, workspaceRoot) + "\0" + operationId
  }

  /** What a workspace stop clears by. */
  function WorkspacePrefix(hostId: string, workspaceRoot: string): string {
    WorkspaceKey(hostId, workspaceRoot) + "\0"
  }

  lemma FirstNul(field: string, rest: string)
    requires NulFree(field)
    ensures var text := field + "\0" + rest;
      && text[|field|] == '\0' && (forall i | 0 <= i < |field| :: text[i] != '\0')
      && text[..|field|] == field && text[|field| + 1..] == rest
  {
    assert forall i | 0 <= i < |field| :: field[i] in field;
  }

  lemma FirstFieldDecides(a: string, x: string, b: string, y: string)
    requires NulFree(a) && NulFree(b)
    ensures b + "\0" + y <= a + "\0" + x <==> a == b && y <= x
  {
    var left, right := b + "\0" + y, a + "\0" + x;
    FirstNul(a, x);
    FirstNul(b, y);
    if a == b && y <= x {
      assert left == right[..|left|];
    }
    if left <= right {
      assert |a| == |b|;
      assert a == left[..|b|] && y == right[|a| + 1..][..|y|];
    }
  }

  /** A workspace's prefix selects the operations of that workspace and of no other one. */
  lemma PrefixSelectsItsWorkspace(host: string, root: string, otherHost: string, otherRoot: string, operationId: string)
    requires NulFree(host) && NulFree(root) && NulFree(otherHost) && NulFree(otherRoot)
    ensures WorkspacePrefix(host, root) <= OperationKey(otherHost, otherRoot, operationId)
            <==> otherHost == host && otherRoot == root
  {
    var rest, otherRest := root + "\0" + "", otherRoot + "\0" + operationId;
    assert WorkspacePrefix(host, root) == host + "\0" + rest;
    assert OperationKey(otherHost, otherRoot, operationId) == otherHost + "\0" + otherRest;
    FirstFieldDecides(otherHost, otherRest, host, rest);
    FirstFieldDecides(otherRoot, operationId, root, "");
  }

  /** Operations of different workspaces, or of one workspace under different ids, never share a key. */
  lemma KeysDistinguish(
    host: string, root: string, id: string, otherHost: string, otherRoot: string, otherId: string)
    requires NulFree(host) && NulFree(root) && NulFree(otherHost) && NulFree(otherRoot)
    ensures OperationKey(host, root, id) == OperationKey(otherHost, otherRoot, otherId)
            <==> host == otherHost && root == otherRoot && id == otherId
  {
    var key, otherKey := OperationKey(host, root, id), OperationKey(otherHost, otherRoot, otherId);
    if key == otherKey {
      assert WorkspacePrefix(host, root) <= key;
      PrefixSelectsItsWorkspace(host, root, otherHost, otherRoot, otherId);
      assert key[|WorkspacePrefix(host, root)|..] == id;
      assert otherKey[|WorkspacePrefix(host, root)|..] == otherId;
    }
  }

  lemma LastNul(text: string, field: string)
    requires NulFree(field)
    ensures var whole := text + "\0" + field;
      && whole[|text|] == '\0' && (forall i | |text| < i < |whole| :: whole[i] != '\0')
      && whole[..|text|] == text && whole[|text| + 1..] == field
  {
    var whole := text + "\0" + field;
    forall i | |text| < i < |whole|
      ensures whole[i] != '\0'
    {
      assert whole[i] == field[i - |text| - 1] && field[i - |text| - 1] in field;
    }
  }

  lemma LastFieldDecides(a: string, x: string, b: string, y: string)
    requires NulFree(x) && NulFree(y)
    ensures a + "\0" + x == b + "\0" + y <==> a == b && x == y
  {
    LastNul(a, x);
    LastNul(b, y);
    var left, right := a + "\0" + x, b + "\0" + y;
    if left == right {
      assert |a| == |b|;
    }
  }

  /** Nothing is asked of host ids here, as the executor asks nothing of them.  The prefix selects
      its own workspace, and besides it those of hosts whose id goes on from the whole prefix. */
  lemma PrefixSelectsExactly(host: string, root: string, otherHost: string, otherRoot: string, operationId: string)
    requires NulFree(root) && NulFree(otherRoot) && NulFree(operationId)
    ensures WorkspacePrefix(host, root) <= OperationKey(otherHost, otherRoot, operationId)
            <==> (otherHost == host && otherRoot == root)
                 || WorkspacePrefix(host, root) <= otherHost + "\0"
  {
    var prefix, key := WorkspacePrefix(host, root), OperationKey(otherHost, otherRoot, operationId);
    var other := WorkspaceKey(otherHost, otherRoot);
    LastNul(other, operationId);
    LastNul(otherHost, otherRoot);
    assert key[..|other| + 1] == other + "\0" && key[..|otherHost| + 1] == otherHost + "\0";
    if prefix <= key {
      var last := |prefix| - 1;
      assert key[last] == prefix[last] == '\0';
      assert last <= |other|;
      if last < |other| {
        assert other[last] == key[last] == '\0';
        assert last <= |otherHost|;
        assert prefix <= key[..|otherHost| + 1];
      } else {
        assert prefix[..last] == WorkspaceKey(host, root) && key[..last] == other;
        LastFieldDecides(host, root, otherHost, otherRoot);
      }
    }
  }

  /** There are such hosts for every workspace. */
  lemma PrefixReachesOddHosts(host: string, root: string, otherRoot: string, operationId: string)
    ensures WorkspacePrefix(host, root) <= OperationKey(WorkspaceKey(host, root), otherRoot, operationId)
  {
  }

  /** Keys made from idempotency keys, which are checked to be free of NUL, never coincide for
      different requests, whatever the host ids. */
  lemma EntryKeysDistinguish(
    host: string, root: string, key: string, otherHost: string, otherRoot: string, otherKey: string)
    requires NulFree(root) && NulFree(key) && NulFree(otherRoot) && NulFree(otherKey)
    ensures OperationKey(host, root, key) == OperationKey(otherHost, otherRoot, otherKey)
            <==> host == otherHost && root == otherRoot && key == otherKey
  {
    LastFieldDecides(WorkspaceKey(host, root), key, WorkspaceKey(otherHost, otherRoot), otherKey);
    LastFieldDecides(host, root, otherHost, otherRoot);
  }
}
