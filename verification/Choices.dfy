/** How scripts/config/symbol.c calculates a choice and its values. The two depend on each other:
    the visibility of a value asks for the choice, and calculating the choice asks for the
    visibility of all its values. */
module Choices {
  import opened Common
  import opened Expressions
  import MenuForest

  /** A choice value as calculation finds it: its type, what the conditions of its prompts say
      besides the choice itself, its own defaults (each with what its condition says, and the
      value), and the user's value. */
  datatype Member = Member(ty: SymType, prompts: seq<Tristate>, defaults: seq<(Tristate, Tristate)>,
                           user: Option<Tristate>)

  /** The choice as calculation finds it. The values of the conditions of its prompts and defaults
      and of the two dependency expressions do not depend on the choice. */
  datatype Setup = Setup(
    ty: SymType, prompts: seq<Tristate>, dir: Tristate, rev: Tristate,
    user: Option<Tristate>, pick: Option<nat>, defaults: seq<(Tristate, nat)>,
    members: seq<Member>, modules: Tristate)
  {
    predicate Valid()
    {
      && (ty == Boolean || ty == Tri)
      && (forall m :: m in members ==> m.ty == Boolean || m.ty == Tri)
      && (pick.Some? ==> pick.value < |members|)
      && (forall d :: d in defaults ==> d.1 < |members|)
    }
  }

  // ----- visibility -----

  function OrAll(s: seq<Tristate>): Tristate
  {
    if s == [] then NO else TriOr(s[0], OrAll(s[1..]))
  }

  /** m counts as y where it cannot be held. */
  function Promote(ty: SymType, modules: Tristate, t: Tristate): Tristate
  {
    if t == MOD && (ty != Tri || modules == NO) then YES else t
  }

  /** What the choice contributes to a condition of a value while it has the value c. A value that
      is not a tristate must wait for a tristate choice to be y. */
  function Share(s: Setup, m: Member, c: Tristate): (r: Tristate)
    ensures r <= c
  {
    if s.ty == Tri && m.ty != Tri && c != YES then NO else c
  }

  /** That is what menu_finalize has made of the condition of its prompt: handing down has added the
      choice itself, and the third loop the test that the choice is y, for those that wait. */
  lemma ShareFinalized(env: Env, c: Sym, i: MenuForest.Info, own: Dep, s: Setup, m: Member)
    requires ValidEnv(env) && c.Choice? && c.Type() == s.ty
    requires i.sym.Some? && i.sym.value.Type() == m.ty && i.prompt.Some?
    requires EvalDep(env, i.prompt.value) == TriAnd(env.tri(c), EvalDep(env, own))
    ensures var j := if MenuForest.Waits(c, i.sym.value) then MenuForest.Guarded(c, i) else i;
            EvalDep(env, j.prompt.value) == TriAnd(Share(s, m, env.tri(c)), EvalDep(env, own))
  {
    hide Eval;
    MenuForest.GuardedMeaning(env, c, i);
  }

  /** A prompt of a value while the choice has the value c. */
  function PromptVisible(s: Setup, m: Member, c: Tristate, own: Tristate): Tristate
  {
    var t := TriAnd(Share(s, m, c), own);
    if m.ty == Tri && t == MOD && c == YES then NO else t
  }

  function PromptsVisible(s: Setup, m: Member, c: Tristate, own: seq<Tristate>): (r: Tristate)
    ensures r <= c && (m.ty == Tri && c == YES ==> r != MOD)
  {
    if own == [] then NO else TriOr(PromptVisible(s, m, c, own[0]), PromptsVisible(s, m, c, own[1..]))
  }

  function MemberVisible(s: Setup, m: Member, c: Tristate): (r: Tristate)
    ensures c == NO ==> r == NO
    ensures m.ty == Boolean || c == YES ==> r != MOD
  {
    Promote(m.ty, s.modules, PromptsVisible(s, m, c, m.prompts))
  }

  /** The value of the first default that is active while the choice has the value c. */
  function DefaultValue(s: Setup, m: Member, c: Tristate, ds: seq<(Tristate, Tristate)>): (r: Tristate)
    ensures r <= Share(s, m, c)
  {
    if ds == [] then NO
    else
      var t := TriAnd(Share(s, m, c), ds[0].0);
      if t != NO then TriAnd(ds[0].1, t) else DefaultValue(s, m, c, ds[1..])
  }

  // ----- the values they should have -----

  /** The choice before it looks for its value. */
  function Wanted(s: Setup): Tristate
  {
    var visible := Promote(s.ty, s.modules, OrAll(s.prompts));
    var boolean := s.ty == Boolean || s.modules == NO;
    var dir := if s.dir == MOD then YES else s.dir;
    var rev := if s.rev == MOD && boolean then YES else s.rev;
    var own := if visible != NO && s.user.Some? then TriAnd(s.user.value, visible) else NO;
    var t := if dir == NO && rev != NO then NO else TriOr(own, rev);
    if t == MOD && boolean then YES else t
  }

  predicate Candidate(s: Setup, i: nat)
    requires i < |s.members|
  {
    MemberVisible(s, s.members[i], YES) != NO
  }

  /** The first default that is active and visible. */
  function FirstDefault(s: Setup, ds: seq<(Tristate, nat)>): Option<nat>
    requires forall d :: d in ds ==> d.1 < |s.members|
  {
    if ds == [] then None
    else if ds[0].0 != NO && Candidate(s, ds[0].1) then Some(ds[0].1)
    else FirstDefault(s, ds[1..])
  }

  /** The first visible value from i on. */
  function FirstVisible(s: Setup, i: nat): Option<nat>
    decreases |s.members| - i
  {
    if i >= |s.members| then None else if Candidate(s, i) then Some(i) else FirstVisible(s, i + 1)
  }

  /** The value that is chosen while the choice is y. */
  function Winner(s: Setup): (w: Option<nat>)
    requires s.Valid()
  {
    if s.pick.Some? && Candidate(s, s.pick.value) then s.pick
    else
      var d := FirstDefault(s, s.defaults);
      if d.Some? then d else FirstVisible(s, 0)
  }

  function ChoiceValue(s: Setup): Tristate
    requires s.Valid()
  {
    if Wanted(s) == YES && Winner(s).None? then NO else Wanted(s)
  }

  function Chosen(s: Setup): Option<nat>
    requires s.Valid()
  {
    if Wanted(s) == YES then Winner(s) else None
  }

  /** What a value comes to, given the choice. */
  function MemberValue(s: Setup, i: nat): Tristate
    requires s.Valid() && i < |s.members|
  {
    var (m, c) := (s.members[i], ChoiceValue(s));
    var visible := MemberVisible(s, m, c);
    var t :=
      if visible == YES then (if Chosen(s) == Some(i) then YES else NO)
      else if visible != NO && m.user.Some? then TriAnd(m.user.value, visible)
      else DefaultValue(s, m, c, m.defaults);
    if t == MOD && (m.ty == Boolean || visible == YES || s.modules == NO) then YES else t
  }

  // ----- which value wins -----

  lemma {:induction false} FirstDefaultExact(s: Setup, ds: seq<(Tristate, nat)>)
    requires forall d :: d in ds ==> d.1 < |s.members|
    ensures var w := FirstDefault(s, ds);
            if w.None? then forall d :: d in ds && d.0 != NO ==> !Candidate(s, d.1)
            else exists k :: 0 <= k < |ds| && ds[k].0 != NO && Candidate(s, ds[k].1) && w == Some(ds[k].1)
                             && forall j :: 0 <= j < k && ds[j].0 != NO ==> !Candidate(s, ds[j].1)
  {
    if ds != [] && !(ds[0].0 != NO && Candidate(s, ds[0].1)) {
      var rest := ds[1..];
      FirstDefaultExact(s, rest);
      if FirstDefault(s, rest).Some? {
        var k :| 0 <= k < |rest| && rest[k].0 != NO && Candidate(s, rest[k].1)
                 && FirstDefault(s, rest) == Some(rest[k].1)
                 && forall j :: 0 <= j < k && rest[j].0 != NO ==> !Candidate(s, rest[j].1);
        assert ds[k + 1] == rest[k];
        forall j | 0 <= j < k + 1 && ds[j].0 != NO
          ensures !Candidate(s, ds[j].1)
        {
          if j > 0 { assert ds[j] == rest[j - 1]; }
        }
      }
    } else if ds != [] {
      assert ds[0].0 != NO && Candidate(s, ds[0].1);
    }
  }

  lemma {:induction false} FirstVisibleExact(s: Setup, i: nat)
    ensures var w := FirstVisible(s, i);
            if w.None? then forall k :: i <= k < |s.members| ==> !Candidate(s, k)
            else i <= w.value < |s.members| && Candidate(s, w.value)
                 && forall k :: i <= k < w.value ==> !Candidate(s, k)
    decreases |s.members| - i
  {
    if i < |s.members| && !Candidate(s, i) {
      FirstVisibleExact(s, i + 1);
    }
  }

  /** There is a winner if any value is visible at all, and the winner is visible. It is the
      user's pick whenever that is visible. */
  lemma WinnerExact(s: Setup)
    requires s.Valid()
    ensures var w := Winner(s);
            && (w.Some? ==> w.value < |s.members| && Candidate(s, w.value))
            && (w.None? <==> forall k :: 0 <= k < |s.members| ==> !Candidate(s, k))
            && (s.pick.Some? && Candidate(s, s.pick.value) ==> w == s.pick)
  {
    FirstDefaultExact(s, s.defaults);
    FirstVisibleExact(s, 0);
  }

  ghost predicate OnlyYes(s: Setup, i: nat)
    requires s.Valid() && i < |s.members|
  {
    MemberValue(s, i) == YES && forall k :: 0 <= k < |s.members| && k != i ==> MemberValue(s, k) == NO
  }

  /** A value that has no visible prompt in a choice that is y, but an active default of its own. */
  predicate Defaulted(s: Setup, i: nat)
    requires i < |s.members|
  {
    !Candidate(s, i) && DefaultValue(s, s.members[i], YES, s.members[i].defaults) != NO
  }

  /** One value is y and all others are n exactly when the choice is y and no value is set by a
      default of its own, and then that one is the winner. The winner is y in any case, and the
      other visible values are n; and no value exceeds a choice that is not y. */
  lemma ChoiceExact(s: Setup)
    requires s.Valid()
    ensures (exists i :: 0 <= i < |s.members| && OnlyYes(s, i)) <==>
            ChoiceValue(s) == YES && forall i :: 0 <= i < |s.members| ==> !Defaulted(s, i)
    ensures ChoiceValue(s) == YES ==>
              && Winner(s).Some? && Winner(s).value < |s.members| && MemberValue(s, Winner(s).value) == YES
              && (forall i :: 0 <= i < |s.members| && i != Winner(s).value ==>
                    (MemberValue(s, i) != NO <==> Defaulted(s, i)))
    ensures ChoiceValue(s) != YES ==> forall i :: 0 <= i < |s.members| ==> MemberValue(s, i) <= ChoiceValue(s)
  {
    WinnerExact(s);
    if ChoiceValue(s) == YES {
      var w := Winner(s).value;
      assert Candidate(s, w);
      assert MemberValue(s, w) == YES;
      forall i | 0 <= i < |s.members| && i != w
        ensures MemberValue(s, i) != NO <==> Defaulted(s, i)
      {
      }
      if forall i :: 0 <= i < |s.members| ==> !Defaulted(s, i) {
        assert OnlyYes(s, w);
      }
      forall i | 0 <= i < |s.members| && OnlyYes(s, i)
        ensures forall k :: 0 <= k < |s.members| ==> !Defaulted(s, k)
      {
        assert i == w;
      }
    } else {
      forall i | 0 <= i < |s.members|
        ensures MemberValue(s, i) <= ChoiceValue(s)
      {
      }
    }
  }

  /** A visible boolean choice that is not optional is n only when none of its values is visible:
      not being optional adds its own prompt, at m, to the conditions that force it. */
  lemma MandatoryChoice(s: Setup)
    requires s.Valid() && (s.ty == Boolean || s.modules == NO) && s.dir != NO
    requires OrAll(s.prompts) != NO && s.rev >= TriAnd(OrAll(s.prompts), MOD)
    ensures ChoiceValue(s) == YES <==> exists i :: 0 <= i < |s.members| && Candidate(s, i)
    ensures ChoiceValue(s) == NO || ChoiceValue(s) == YES
  {
    WinnerExact(s);
  }

  // ----- the calculation -----

  /** The parts of struct symbol that are calculated for a choice value. */
  class MemberState {
    var valid: bool
    var visible: Tristate
    var tri: Tristate
  }

  class Choice {
    const s: Setup
    const states: seq<MemberState>
    var valid: bool
    var hasUser: bool
    var visible: Tristate
    var dirTri: Tristate
    var revTri: Tristate
    var tri: Tristate
    var val: Option<nat>   // the value that curr.val points to, if any

    ghost predicate Shape()
    {
      && s.Valid() && |states| == |s.members|
      && forall i, j :: 0 <= i < j < |states| ==> states[i] != states[j]
    }

    /** The choice is right if it has been calculated. */
    ghost predicate ChoiceInv()
      reads this
    {
      Shape() && if valid then tri == ChoiceValue(s) && val == Chosen(s) else hasUser == s.user.Some?
    }

    /** Whatever has been calculated is right. */
    ghost predicate Inv()
      reads this, states
    {
      ChoiceInv() && forall i :: 0 <= i < |states| && states[i].valid ==> states[i].tri == MemberValue(s, i)
    }

    /** Nothing has been calculated yet. */
    constructor (s: Setup)
      requires s.Valid()
      ensures this.s == s && Inv() && !valid && forall i :: 0 <= i < |states| ==> !states[i].valid
    {
      this.s := s;
      this.valid := false;
      this.hasUser := s.user.Some?;
      var all: seq<MemberState> := [];
      while |all| < |s.members|
        invariant |all| <= |s.members|
        invariant forall i :: 0 <= i < |all| ==> fresh(all[i]) && !all[i].valid
        invariant forall i, j :: 0 <= i < j < |all| ==> all[i] != all[j]
      {
        var m := new MemberState;
        m.valid := false;
        all := all + [m];
      }
      this.states := all;
    }

    /** sym_get_type for the choice. */
    function GetType(): SymType { if s.ty == Tri && s.modules == NO then Boolean else s.ty }

    /** sym_calc_visibility for the choice. */
    method CalcVisibility()
      modifies this`visible, this`dirTri, this`revTri
      ensures visible == Promote(s.ty, s.modules, OrAll(s.prompts))
      ensures dirTri == (if s.dir == MOD then YES else s.dir)
      ensures revTri == (if s.rev == MOD && GetType() == Boolean then YES else s.rev)
    {
      var t := NO;
      var k := 0;
      while k < |s.prompts|
        invariant k <= |s.prompts| && TriOr(t, OrAll(s.prompts[k..])) == OrAll(s.prompts)
      {
        assert s.prompts[k..][1..] == s.prompts[k + 1..];
        t := TriOr(t, s.prompts[k]);
        k := k + 1;
      }
      visible := if t == MOD && (s.ty != Tri || s.modules == NO) then YES else t;
      dirTri := if s.dir == MOD then YES else s.dir;
      revTri := if s.rev == MOD && GetType() == Boolean then YES else s.rev;
    }

    /** Only the visibility of the values may have changed. */
    twostate predicate SameValues()
      reads states
    {
      forall k :: 0 <= k < |states| ==> states[k].valid == old(states[k].valid) && states[k].tri == old(states[k].tri)
    }

    /** sym_calc_visibility for a value. Its prompts are conditions that include the choice, so
        evaluating one of them calculates the choice first, unless that is under way already. */
    method CalcMemberVisibility(i: nat)
      requires Shape() && i < |states| && (valid || ChoiceInv())
      modifies this, states
      ensures SameValues()
      ensures if old(valid) then unchanged(this) && forall k :: 0 <= k < |states| && k != i ==> unchanged(states[k])
              else ChoiceInv()
      ensures valid || s.members[i].prompts == []
      ensures states[i].visible == MemberVisible(s, s.members[i], tri)
      decreases if valid then 0 else 1, 1
    {
      var m := s.members[i];
      var t := NO;
      var k := 0;
      while k < |m.prompts|
        invariant k <= |m.prompts| && SameValues() && (k == 0 ==> t == NO) && (k > 0 ==> valid)
        invariant if old(valid) then unchanged(this) && forall k :: 0 <= k < |states| ==> unchanged(states[k])
                  else ChoiceInv()
        invariant k > 0 ==> TriOr(t, PromptsVisible(s, m, tri, m.prompts[k..])) == PromptsVisible(s, m, tri, m.prompts)
      {
        assert m.prompts[k..][1..] == m.prompts[k + 1..] && m.prompts[0..] == m.prompts;
        Calc();
        var p := TriAnd(Share(s, m, tri), m.prompts[k]);
        if m.ty == Tri && p == MOD && tri == YES {
          p := NO;
        }
        t := TriOr(t, p);
        k := k + 1;
      }
      if t == MOD && (m.ty != Tri || s.modules == NO) {
        t := YES;
      }
      states[i].visible := t;
    }

    /** sym_choice_default. */
    method ChoiceDefault() returns (w: Option<nat>)
      requires Shape() && forall k :: 0 <= k < |states| ==> states[k].visible == MemberVisible(s, s.members[k], YES)
      ensures var d := FirstDefault(s, s.defaults); w == if d.Some? then d else FirstVisible(s, 0)
    {
      var k := 0;
      while k < |s.defaults|
        invariant k <= |s.defaults| && FirstDefault(s, s.defaults) == FirstDefault(s, s.defaults[k..])
      {
        assert s.defaults[k..][1..] == s.defaults[k + 1..];
        var d := s.defaults[k];
        if d.0 != NO && states[d.1].visible != NO {
          return Some(d.1);
        }
        k := k + 1;
      }
      k := 0;
      while k < |states|
        invariant k <= |states| && FirstVisible(s, 0) == FirstVisible(s, k)
      {
        if states[k].visible != NO {
          return Some(k);
        }
        k := k + 1;
      }
      return None;
    }

    /** sym_calc_choice. */
    method CalcChoice() returns (w: Option<nat>)
      requires Shape() && valid && tri == YES
      modifies this, states
      ensures valid && w == Winner(s) && tri == (if w.None? then NO else YES) && SameValues()
      decreases 0, 2
    {
      var keep := true;
      var k := 0;
      while k < |states|
        invariant k <= |states| && unchanged(this) && SameValues()
        invariant forall j :: 0 <= j < k ==> states[j].visible == MemberVisible(s, s.members[j], YES)
      {
        CalcMemberVisibility(k);
        if states[k].visible != NO {
          keep := keep && s.members[k].user.Some?;
        }
        k := k + 1;
      }
      hasUser := hasUser && keep;
      w := s.pick;
      if w.Some? && states[w.value].visible != NO {
        return;
      }
      w := ChoiceDefault();
      if w == None {
        tri := NO;
      }
    }

    /** sym_calc_value for the choice. */
    method Calc()
      requires Shape() && (valid || ChoiceInv())
      modifies this, states
      ensures valid && SameValues()
      ensures if old(valid) then unchanged(this) && forall k :: 0 <= k < |states| ==> unchanged(states[k])
              else ChoiceInv()
      decreases if valid then 0 else 1, 0
    {
      if valid {
        return;
      }
      valid := true;
      CalcVisibility();
      tri, val := NO, None;
      var newval := NO;
      if visible != NO && hasUser {
        newval := TriAnd(s.user.value, visible);
      }
      if dirTri == NO && revTri != NO {
        newval := NO;
      } else {
        newval := TriOr(newval, revTri);
      }
      if newval == MOD && GetType() == Boolean {
        newval := YES;
      }
      assert newval == Wanted(s);
      tri := newval;
      if newval == YES {
        val := CalcChoice();
      }
    }

    /** sym_get_default_prop for a value, and the value of the default that it finds. Evaluating the
        conditions calculates the choice. */
    method CalcDefault(i: nat) returns (t: Tristate)
      requires i < |states| && ChoiceInv()
      modifies this, states
      ensures ChoiceInv() && SameValues() && (old(valid) ==> valid && tri == old(tri) && val == old(val))
      ensures states[i].visible == old(states[i].visible) || !old(valid)
      ensures t == DefaultValue(s, s.members[i], ChoiceValue(s), s.members[i].defaults)
    {
      var m := s.members[i];
      var k := 0;
      while k < |m.defaults|
        invariant k <= |m.defaults| && ChoiceInv() && SameValues()
        invariant old(valid) ==> valid && tri == old(tri) && val == old(val)
        invariant old(valid) ==> states[i].visible == old(states[i].visible)
        invariant DefaultValue(s, m, ChoiceValue(s), m.defaults) == DefaultValue(s, m, ChoiceValue(s), m.defaults[k..])
      {
        assert m.defaults[k..][1..] == m.defaults[k + 1..];
        Calc();
        var c := TriAnd(Share(s, m, tri), m.defaults[k].0);
        if c != NO {
          return TriAnd(m.defaults[k].1, c);
        }
        k := k + 1;
      }
      return NO;
    }

    /** The value of a value whose visibility is known. */
    method MemberTarget(i: nat) returns (newval: Tristate)
      requires i < |states| && ChoiceInv() && states[i].visible == MemberVisible(s, s.members[i], ChoiceValue(s))
      requires states[i].visible == NO || valid
      modifies this, states
      ensures ChoiceInv() && SameValues() && (old(valid) ==> valid) && newval == MemberValue(s, i)
    {
      var visible := states[i].visible;
      newval := NO;
      if visible == YES {
        newval := if val == Some(i) then YES else NO;
      } else if visible != NO && s.members[i].user.Some? {
        newval := TriAnd(s.members[i].user.value, visible);
      } else {
        newval := CalcDefault(i);
      }
      if newval == MOD && (s.members[i].ty == Boolean || visible == YES || s.modules == NO) {
        newval := YES;
      }
    }

    /** sym_calc_value for a value. */
    method CalcMember(i: nat)
      requires Inv() && i < |states|
      modifies this, states
      ensures Inv() && states[i].valid && (old(valid) ==> valid)
      ensures forall k :: 0 <= k < |states| && old(states[k].valid) ==> states[k].valid
    {
      var m := states[i];
      if m.valid {
        return;
      }
      m.valid := true;
      CalcMemberVisibility(i);
      m.tri := NO;
      var newval := MemberTarget(i);
      m.tri := newval;
    }
  }

  /** In whatever order the choice and its values are asked for, they get the same values. */
  method CalcInOrder(c: Choice, order: seq<Option<nat>>)
    requires c.Inv() && forall o :: o in order && o.Some? ==> o.value < |c.states|
    modifies c, c.states
    ensures c.Inv()
    ensures None in order ==> c.valid && c.tri == ChoiceValue(c.s) && c.val == Chosen(c.s)
    ensures forall o :: o in order && o.Some? ==>
              c.states[o.value].valid && c.states[o.value].tri == MemberValue(c.s, o.value)
  {
    var k := 0;
    while k < |order|
      invariant k <= |order| && c.Inv()
      invariant forall j :: 0 <= j < k ==> if order[j].None? then c.valid else c.states[order[j].value].valid
    {
      if order[k].None? {
        c.Calc();
      } else {
        c.CalcMember(order[k].value);
      }
      k := k + 1;
    }
  }
}
