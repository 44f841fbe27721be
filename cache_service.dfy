/**
 * The node registry (CacheService): node name to node. Every node the
 * facades register is built over the facade's one fast store and one
 * database, which the registry records as ghost state so that `flushAll`
 * can say what it may change.
 */
module Registry {
  import opened Json
  import opened GenericTable
  import opened Stores
  import opened NodeSpec
  import opened CacheNodes

  /** Each registered node is filed under its own name and works on the shared stores. */
  ghost predicate Registered(nodes: map<string, CacheNode>, store: FastStore, db: Database) {
    forall name :: name in nodes ==> nodes[name].name == name && nodes[name].store == store && nodes[name].db == db
  }

  /**
   * `flushAll` took the stores from `before` to `after` by flushing the nodes
   * named in `order`, each once, in that order, `trace[i]` being the state
   * before the i-th flush: all registered nodes when no exception escaped,
   * and otherwise up to and including the node whose flush threw.
   */
  ghost predicate FlushedAll(nodes: map<string, CacheNode>, before: World, after: World, thrown: bool, order: seq<string>,
                             trace: seq<World>, saveOrders: seq<seq<string>>, removeOrders: seq<seq<string>>)
  {
    && |trace| == |order| + 1 && |saveOrders| == |order| && |removeOrders| == |order|
    && trace[0] == before && trace[|order|] == after
    && (forall i, j :: 0 <= i < j < |order| ==> order[i] != order[j])
    && (forall name :: name in order ==> name in nodes)
    && (!thrown ==> IsEnumeration(order, nodes.Keys))
    && (thrown ==> order != [])
    && (forall i :: 0 <= i < |order| ==>
          FlushedBy(trace[i], trace[i + 1], order[i], nodes[order[i]].identify,
                    saveOrders[i], removeOrders[i], thrown && i == |order| - 1))
  }

  /** A map that files every value under the value's own name has as many values as keys. */
  lemma {:induction false} NamedValuesCount(nodes: map<string, CacheNode>)
    requires forall name :: name in nodes ==> nodes[name].name == name
    ensures |nodes.Values| == |nodes|
    decreases |nodes|
  {
    if nodes != map[] {
      var name :| name in nodes;
      var rest := nodes - {name};
      NamedValuesCount(rest);
      forall n | n in nodes.Values
        ensures n in rest.Values + {nodes[name]}
      {
        var k :| k in nodes && nodes[k] == n;
        if k != name {
          assert rest[k] == n;
        }
      }
      forall n | n in rest.Values
        ensures n in nodes.Values
      {
        var k :| k in rest && rest[k] == n;
        assert nodes[k] == n;
      }
      assert nodes.Values == rest.Values + {nodes[name]};
      assert nodes[name] !in rest.Values;
      assert nodes.Keys == rest.Keys + {name};
    }
  }

  class CacheService {
    var cacheNodes: map<string, CacheNode>
    ghost const store: FastStore
    ghost const db: Database

    ghost predicate Valid()
      reads this
    {
      Registered(cacheNodes, store, db)
    }

    constructor (ghost store: FastStore, ghost db: Database)
      ensures Valid() && cacheNodes == map[] && this.store == store && this.db == db
    {
      cacheNodes := map[];
      this.store, this.db := store, db;
    }

    /**
     * `registerNode(node)`: file the node under its name, replacing any node
     * of that name, then create its table if it does not exist.
     */
    method RegisterNode(node: CacheNode)
      requires Valid() && node.store == store && node.db == db
      modifies this, db
      ensures Valid()
      ensures cacheNodes == old(cacheNodes)[node.name := node]
      ensures GetNode(node.name) == node
      ensures db.tables == if old(db.down) then old(db.tables) else CreateTable(old(db.tables), node.name)
      ensures db.cells == old(db.cells) && db.down == old(db.down)
    {
      cacheNodes := cacheNodes[node.name := node];
      node.CreateTableIfNotExists();
    }

    /** `getNode(name)`: the node registered under `name`, or null. */
    function GetNode(name: string): (node: CacheNode?)
      reads this
      requires Valid()
      ensures node != null <==> name in cacheNodes
      ensures name in cacheNodes ==> node == cacheNodes[name]
      ensures node != null ==> node.name == name && node.store == store && node.db == db
    {
      if name in cacheNodes then cacheNodes[name] else null
    }

    /** `getAllNodes()`: the registered nodes, one per registered name. */
    function GetAllNodes(): (nodes: set<CacheNode>)
      reads this
      requires Valid()
      ensures forall n :: n in nodes ==> n.name in cacheNodes && cacheNodes[n.name] == n
      ensures forall name :: name in cacheNodes ==> cacheNodes[name] in nodes
      ensures |nodes| == |cacheNodes|
    {
      NamedValuesCount(cacheNodes);
      cacheNodes.Values
    }

    /**
     * `flushAll()`: flush every registered node once, in the map's iteration
     * order `order`. An exception escaping one flush leaves the loop, so the
     * nodes after it are not flushed. `trace[i]` is the state of the stores
     * before the i-th flush.
     */
    method FlushAll() returns (thrown: bool, ghost order: seq<string>, ghost trace: seq<World>,
                               ghost saveOrders: seq<seq<string>>, ghost removeOrders: seq<seq<string>>)
      requires Valid()
      modifies store, db
      ensures FlushedAll(cacheNodes, old(WorldOf(store, db)), WorldOf(store, db), thrown, order, trace, saveOrders, removeOrders)
    {
      thrown := false;
      order, trace, saveOrders, removeOrders := [], [WorldOf(store, db)], [], [];
      var rest := cacheNodes.Keys;
      while rest != {}
        invariant rest <= cacheNodes.Keys
        invariant IsEnumeration(order, cacheNodes.Keys - rest)
        invariant |trace| == |order| + 1 && |saveOrders| == |order| && |removeOrders| == |order|
        invariant trace[0] == old(WorldOf(store, db)) && trace[|order|] == WorldOf(store, db)
        invariant forall i :: 0 <= i < |order| ==>
          && order[i] in cacheNodes
          && FlushedBy(trace[i], trace[i + 1], order[i], cacheNodes[order[i]].identify, saveOrders[i], removeOrders[i], false)
        decreases rest
      {
        var name :| name in rest;
        var node := cacheNodes[name];
        EnumerationConcat(order, cacheNodes.Keys - rest, [name], {name});
        assert cacheNodes.Keys - rest + {name} == cacheNodes.Keys - (rest - {name});
        rest := rest - {name};
        ghost var saveOrder, removeOrder;
        var nodeThrew;
        saveOrder, removeOrder, nodeThrew := node.Flush();
        order, trace := order + [name], trace + [WorldOf(store, db)];
        saveOrders, removeOrders := saveOrders + [saveOrder], removeOrders + [removeOrder];
        if nodeThrew {
          thrown := true;
          return;
        }
      }
    }
  }
}
