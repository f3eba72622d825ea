/**
 * RefDb.getTransitiveClosureCitedBy: every publication that cites a given one directly or
 * through a chain of citations. The citation graph is the one over the publications of `world`,
 * which holds every publication a citation link can reach.
 */
module CitationClosure {
  import opened RefDatabase

  /** `q` cites `p` through a chain of `n` citations: `n == 1` is a direct citator, and a longer
      chain ends with a citator of a publication reached in one step less. */
  ghost predicate CitesInSteps(world: set<Publication>, n: nat, p: Publication, q: Publication)
    reads world
    decreases n
  {
    if n <= 1 then n == 1 && p in world && q in p.citedBy
    else exists m :: m in world && CitesInSteps(world, n - 1, p, m) && q in m.citedBy
  }

  /** `q` cites `p` directly or indirectly. Nothing excludes `q == p` when the citations form a
      cycle through `p`. */
  ghost predicate CitesIndirectly(world: set<Publication>, p: Publication, q: Publication)
    reads world
  {
    exists n: nat :: CitesInSteps(world, n, p, q)
  }

  /** A direct citator cites indirectly. */
  lemma DirectCitator(world: set<Publication>, p: Publication, c: Publication)
    requires p in world && c in p.citedBy
    ensures CitesIndirectly(world, p, c)
  {
    assert CitesInSteps(world, 1, p, c);
  }

  /** A citator of an indirect citator cites indirectly. */
  lemma CitatorOfCitator(world: set<Publication>, p: Publication, q: Publication, c: Publication)
    requires CitesIndirectly(world, p, q) && q in world && c in q.citedBy
    ensures CitesIndirectly(world, p, c)
  {
    var n: nat :| CitesInSteps(world, n, p, q);
    assert CitesInSteps(world, n + 1, p, c);
  }

  /** A set that holds the citators of `p` and the citators of each of its members holds every
      publication that cites `p` indirectly. */
  lemma ClosedHoldsIndirectCitators(world: set<Publication>, p: Publication, s: set<Publication>, q: Publication)
    requires p.citedBy <= s
    requires forall x :: x in s ==> x.citedBy <= s
    requires CitesIndirectly(world, p, q)
    ensures q in s
  {
    var n: nat :| CitesInSteps(world, n, p, q);
    StepsInside(world, p, s, n, q);
  }

  lemma {:induction false} StepsInside(world: set<Publication>, p: Publication, s: set<Publication>, n: nat, q: Publication)
    requires p.citedBy <= s
    requires forall x :: x in s ==> x.citedBy <= s
    requires CitesInSteps(world, n, p, q)
    ensures q in s
    decreases n
  {
    if n > 1 {
      var m :| m in world && CitesInSteps(world, n - 1, p, m) && q in m.citedBy;
      StepsInside(world, p, s, n - 1, m);
    }
  }

  /** On a citation cycle the start publication cites itself indirectly, so the closure holds it:
      when `p` and `c` cite each other, `p` is a citator of its own citator `c`. */
  lemma StartOnCycle(world: set<Publication>, p: Publication, c: Publication)
    requires p in world && c in world && c in p.citedBy && p in c.citedBy
    ensures CitesIndirectly(world, p, p)
  {
    assert CitesInSteps(world, 1, p, c);
    assert CitesInSteps(world, 2, p, p);
  }

  /** A publication nobody cites is cited by nobody indirectly either: its closure is empty. */
  lemma NoCitatorsNoClosure(world: set<Publication>, p: Publication, q: Publication)
    requires p.citedBy == {}
    ensures !CitesIndirectly(world, p, q)
  {
    forall n: nat
      ensures !CitesInSteps(world, n, p, q)
    {
      NoStepsFromUncited(world, p, n, q);
    }
  }

  lemma {:induction false} NoStepsFromUncited(world: set<Publication>, p: Publication, n: nat, q: Publication)
    requires p.citedBy == {}
    ensures !CitesInSteps(world, n, p, q)
    decreases n
  {
    if n > 1 {
      forall m | m in world
        ensures !CitesInSteps(world, n - 1, p, m)
      {
        NoStepsFromUncited(world, p, n - 1, m);
      }
    }
  }

  /** The citators of every publication of `world` are in `world` (part of CitationGraph). */
  ghost predicate CitatorsWithin(world: set<Publication>)
    reads world
  {
    forall x :: x in world ==> x.citedBy <= world
  }

  /** getTransitiveClosureCitedBy: exactly the publications that cite `p` directly or indirectly
      (including `p` itself when it lies on a citation cycle). */
  method GetTransitiveClosureCitedBy(p: Publication, ghost world: set<Publication>) returns (r: set<Publication>)
    requires p in world && CitationGraph(world)
    ensures forall q :: q in r <==> CitesIndirectly(world, p, q)
  {
    assert CitatorsWithin(world);
    r := CollectCitators(p, {}, p, world);
    forall q | CitesIndirectly(world, p, q)
      ensures q in r
    {
      ClosedHoldsIndirectCitators(world, p, r, q);
    }
  }

  /** The private getTransitiveClosureCitedBy: each citator of `p` is visited in turn. The
      collected set only grows; each publication added is finished with its citators collected,
      and it cites `start` indirectly. */
  method CollectCitators(p: Publication, acc: set<Publication>, ghost start: Publication, ghost world: set<Publication>)
    returns (r: set<Publication>)
    requires p in world && CitatorsWithin(world)
    requires p == start || CitesIndirectly(world, start, p)
    requires forall q :: q in acc ==> CitesIndirectly(world, start, q)
    ensures acc <= r && p.citedBy <= r
    ensures forall q :: q in r && q !in acc ==> q.citedBy <= r
    ensures forall q :: q in r ==> CitesIndirectly(world, start, q)
    decreases world - acc, 1
  {
    r := acc;
    var todo := p.citedBy;
    while todo != {}
      invariant todo <= p.citedBy && acc <= r
      invariant forall x :: x in p.citedBy && x !in todo ==> x in r
      invariant forall q :: q in r && q !in acc ==> q.citedBy <= r
      invariant forall q :: q in r ==> CitesIndirectly(world, start, q)
      decreases |todo|
    {
      var c :| c in todo;
      r := Visit(p, c, r, start, world);
      todo := todo - {c};
    }
  }

  /** One round of the loop of the private getTransitiveClosureCitedBy: a citator `c` of `p` not
      collected yet is added and, when it has citators of its own, they are collected in turn. */
  method Visit(p: Publication, c: Publication, acc: set<Publication>, ghost start: Publication, ghost world: set<Publication>)
    returns (r: set<Publication>)
    requires p in world && c in p.citedBy && CitatorsWithin(world)
    requires p == start || CitesIndirectly(world, start, p)
    requires forall q :: q in acc ==> CitesIndirectly(world, start, q)
    ensures acc <= r && c in r
    ensures forall q :: q in r && q !in acc ==> q.citedBy <= r
    ensures forall q :: q in r ==> CitesIndirectly(world, start, q)
    decreases world - acc, 0
  {
    r := acc;
    if c !in r {
      if p == start {
        DirectCitator(world, start, c);
      } else {
        CitatorOfCitator(world, start, p, c);
      }
      r := r + {c};
      if |c.citedBy| > 0 {
        assert c in world - acc && c !in world - r;
        // the callee fills the very set it is given, so adding its result adds nothing new
        r := CollectCitators(c, r, start, world);
      }
    }
  }
}
