/**
 * `INITIAL_DATA`: one page whose root has two tasks, the first of them with
 * one subtask. The sample dates are today's, which the caller supplies.
 * The string ids of the sample are numbered here: root-1 is 1, node-1 is 2,
 * node-1-1 is 3, node-2 is 4, and page-1 is 1.
 */
module Seed {
  import opened Nodes
  import opened Chains
  import opened Tree
  import opened Walks

  const ROOT: Id := 1
  const PHASE_ONE: Id := 2
  const RESEARCH: Id := 3
  const PHASE_TWO: Id := 4
  const FIRST_PAGE: Id := 1

  function SeedNodes(today: string): map<Id, Node> {
    map[
      ROOT := Node(ROOT, "项目核心目标", [PHASE_ONE, PHASE_TWO], None, true, false, false, 0,
                   NoTime, "", "", "", false, "", [], false, false),
      PHASE_ONE := Node(PHASE_ONE, "阶段一：需求分析", [RESEARCH], Some(ROOT), false, false, false, 5,
                        Deadline, today, "", "", false, "重点关注竞品分析", [], true, false),
      RESEARCH := Node(RESEARCH, "调研市场竞品", [], Some(PHASE_ONE), false, false, true, 2,
                       NoTime, "", "", "", false, "", [], false, false),
      PHASE_TWO := Node(PHASE_TWO, "阶段二：原型设计", [], Some(ROOT), false, false, false, 3,
                        Schedule, "", today + "T14:00", today + "T16:00", true, "使用 Figma 进行设计", [], true, false)
    ]
  }

  function SeedPages(): seq<Page> {
    [Page(FIRST_PAGE, "我的第一个项目", ROOT)]
  }

  /** The sample tree is well formed. */
  lemma SeedConsistent(today: string)
    ensures Consistent(SeedNodes(today))
  {
    var m := SeedNodes(today);
    assert m.Keys == {ROOT, PHASE_ONE, RESEARCH, PHASE_TWO};
    SampleShape(m);
  }

  /** Any map with the links of the sample is well formed, whatever the other fields hold. */
  lemma SampleShape(m: map<Id, Node>)
    requires m.Keys == {ROOT, PHASE_ONE, RESEARCH, PHASE_TWO}
    requires m[ROOT].id == ROOT && m[ROOT].children == [PHASE_ONE, PHASE_TWO] && m[ROOT].parentId == None && m[ROOT].isRoot
    requires m[PHASE_ONE].id == PHASE_ONE && m[PHASE_ONE].children == [RESEARCH]
    requires m[PHASE_ONE].parentId == Some(ROOT) && !m[PHASE_ONE].isRoot
    requires m[RESEARCH].id == RESEARCH && m[RESEARCH].children == []
    requires m[RESEARCH].parentId == Some(PHASE_ONE) && !m[RESEARCH].isRoot
    requires m[PHASE_TWO].id == PHASE_TWO && m[PHASE_TWO].children == []
    requires m[PHASE_TWO].parentId == Some(ROOT) && !m[PHASE_TWO].isRoot
    ensures Consistent(m)
  {
    SampleAcyclic(m);
    SamplePointBack(m);
    SampleListed(m);
  }

  lemma SampleAcyclic(m: map<Id, Node>)
    requires m.Keys == {ROOT, PHASE_ONE, RESEARCH, PHASE_TWO}
    requires m[ROOT].id == ROOT && m[ROOT].children == [PHASE_ONE, PHASE_TWO] && m[ROOT].parentId == None && m[ROOT].isRoot
    requires m[PHASE_ONE].id == PHASE_ONE && m[PHASE_ONE].children == [RESEARCH]
    requires m[PHASE_ONE].parentId == Some(ROOT) && !m[PHASE_ONE].isRoot
    requires m[RESEARCH].id == RESEARCH && m[RESEARCH].children == []
    requires m[RESEARCH].parentId == Some(PHASE_ONE) && !m[RESEARCH].isRoot
    requires m[PHASE_TWO].id == PHASE_TWO && m[PHASE_TWO].children == []
    requires m[PHASE_TWO].parentId == Some(ROOT) && !m[PHASE_TWO].isRoot
    ensures Acyclic(m)
  {
    assert EndsWithin(m, ROOT, 0);
    assert EndsWithin(m, PHASE_ONE, 1);
    assert EndsWithin(m, RESEARCH, 2);
    assert EndsWithin(m, PHASE_TWO, 1);
  }

  lemma SamplePointBack(m: map<Id, Node>)
    requires m.Keys == {ROOT, PHASE_ONE, RESEARCH, PHASE_TWO}
    requires m[ROOT].id == ROOT && m[ROOT].children == [PHASE_ONE, PHASE_TWO] && m[ROOT].parentId == None && m[ROOT].isRoot
    requires m[PHASE_ONE].id == PHASE_ONE && m[PHASE_ONE].children == [RESEARCH]
    requires m[PHASE_ONE].parentId == Some(ROOT) && !m[PHASE_ONE].isRoot
    requires m[RESEARCH].id == RESEARCH && m[RESEARCH].children == []
    requires m[RESEARCH].parentId == Some(PHASE_ONE) && !m[RESEARCH].isRoot
    requires m[PHASE_TWO].id == PHASE_TWO && m[PHASE_TWO].children == []
    requires m[PHASE_TWO].parentId == Some(ROOT) && !m[PHASE_TWO].isRoot
    ensures ChildrenPointBack(m)
  {
    forall k, c | k in m && c in m[k].children ensures c in m && m[c].parentId == Some(k) {
      assert k == ROOT || k == PHASE_ONE;
    }
  }

  lemma SampleListed(m: map<Id, Node>)
    requires m.Keys == {ROOT, PHASE_ONE, RESEARCH, PHASE_TWO}
    requires m[ROOT].id == ROOT && m[ROOT].children == [PHASE_ONE, PHASE_TWO] && m[ROOT].parentId == None && m[ROOT].isRoot
    requires m[PHASE_ONE].id == PHASE_ONE && m[PHASE_ONE].children == [RESEARCH]
    requires m[PHASE_ONE].parentId == Some(ROOT) && !m[PHASE_ONE].isRoot
    requires m[RESEARCH].id == RESEARCH && m[RESEARCH].children == []
    requires m[RESEARCH].parentId == Some(PHASE_ONE) && !m[RESEARCH].isRoot
    requires m[PHASE_TWO].id == PHASE_TWO && m[PHASE_TWO].children == []
    requires m[PHASE_TWO].parentId == Some(ROOT) && !m[PHASE_TWO].isRoot
    ensures ParentsListChildren(m) && ChildListsDistinct(m)
  {
    forall k | k in m && m[k].parentId.Some? && m[k].parentId.value in m
      ensures k in m[m[k].parentId.value].children
    {
      assert k == PHASE_ONE || k == RESEARCH || k == PHASE_TWO;
    }
    assert NoDup(m[ROOT].children);
  }

  /** Both sample headings sit where the panel offers the heading switch. */
  lemma SeedHeadingsAllowed(today: string, k: Id)
    requires k in SeedNodes(today) && SeedNodes(today)[k].isHeading
    ensures Ends(SeedNodes(today), k) && CanBeHeading(SeedNodes(today)[k], Depth(SeedNodes(today), k))
  {
    var m := SeedNodes(today);
    SeedConsistent(today);
    assert k == PHASE_ONE || k == PHASE_TWO;
    assert m[k].parentId == Some(ROOT) && m[ROOT].isRoot;
    DepthAtTop(m, k);
  }
}
