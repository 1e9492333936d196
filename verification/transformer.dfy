/**
 * The per-file source analysis: which module format a file is written in, which modules
 * it loads, and whether a CommonJS file uses the `Buffer` global.
 *
 * Parsing and regular-expression scanning are not modelled: a file is described by the
 * facts the analysis reads from it (what its syntax trees contain, in walk order, and
 * whether each detection pattern matches).
 */
module Transformer {
  import opened Wrappers
  import opened JsString
  import opened Json

  /** An argument of a call: a literal (its processed value) or any other expression. */
  datatype Arg = Literal(value: Json) | Expression

  /** The syntax-tree nodes the analysis reacts to, in the order a tree walk visits them. */
  datatype Node =
    | Call(callee: Option<string>, args: seq<Arg>)  // callee: the identifier called, if it is one
    | IdentifierUse(name: string)
    | BindingName(name: string)
    | FunctionDeclaration(declared: Option<string>)
    | ImportDeclaration
    | ExportDeclaration
    | ModuleSpecifier(value: Json)
    | Throws                                          // the walk raises an error at this node

  /** What a file looks like to the analysis. */
  datatype Source = Source(
    text: string,
    leadingLength: nat,                // length of the leading comments and string directives
    moduleTree: Option<seq<Node>>,     // parse as an ES module; None for a syntax error
    scriptTree: Option<seq<Node>>,     // parse as a script; None for a syntax error
    requirePattern: bool,              // a `require("…")` call is found by pattern
    exportsPattern: bool,              // an `exports.` / `module.exports` use is found by pattern
    amdPattern: bool)                  // a `define(…)` call is found by pattern

  /** The result of the analysis. */
  datatype Analysis = Analysis(required: seq<Json>, format: string, usesBuffer: bool)

  /** The nodes a walk gets through before it raises an error. */
  function Walked(nodes: seq<Node>): (r: seq<Node>)
    ensures |r| <= |nodes| && r == nodes[..|r|]
    ensures Throws !in r
    ensures |r| < |nodes| ==> nodes[|r|] == Throws
  {
    if |nodes| == 0 || nodes[0] == Throws then []
    else
      var rest := Walked(nodes[1..]);
      assert nodes == [nodes[0]] + nodes[1..];
      [nodes[0]] + rest
  }

  /** `if (list.indexOf(v) == -1) list.push(v)` */
  function PushUnique(list: seq<Json>, v: Json): (r: seq<Json>)
    ensures v in r && forall x :: x in r <==> x in list || x == v
  {
    if v in list then list else list + [v]
  }

  /** No value occurs twice. */
  predicate Distinct(s: seq<Json>) {
    forall i, j :: 0 <= i < j < |s| ==> s[i] != s[j]
  }

  /** Pushing each of `vs` in turn onto `list`, skipping values already there. */
  function Collect(list: seq<Json>, vs: seq<Json>): (r: seq<Json>)
    requires Distinct(list)
    ensures Distinct(r)
    ensures forall x :: x in r <==> x in list || x in vs
    ensures |list| <= |r| && r[..|list|] == list
    decreases |vs|
  {
    if |vs| == 0 then list
    else
      var next := PushUnique(list, vs[0]);
      assert Distinct(next);
      var r := Collect(next, vs[1..]);
      CollectStep(list, vs, next, r);
      r
  }

  /** The loop's facts carried back over the first push. */
  lemma CollectStep(list: seq<Json>, vs: seq<Json>, next: seq<Json>, r: seq<Json>)
    requires |vs| > 0 && next == PushUnique(list, vs[0])
    requires forall x :: x in r <==> x in next || x in vs[1..]
    requires |next| <= |r| && r[..|next|] == next
    ensures forall x :: x in r <==> x in list || x in vs
    ensures |list| <= |r| && r[..|list|] == list
  {
    assert forall x :: x in vs <==> x == vs[0] || x in vs[1..] by {
      assert vs == [vs[0]] + vs[1..];
    }
    assert r[..|list|] == r[..|next|][..|list|];
  }

  /** The module a call loads: a call of `require` with exactly one literal argument. */
  function RequireOf(n: Node): (r: Option<Json>)
    ensures r.Some? <==> n.Call? && n.callee == Some("require") && |n.args| == 1 && n.args[0].Literal?
  {
    if n.Call? && n.callee == Some("require") && |n.args| == 1 && n.args[0].Literal? then
      Some(n.args[0].value)
    else None
  }

  /** The modules loaded by `require(…)`, in the order the walk meets them. */
  function RequireCalls(nodes: seq<Node>): (r: seq<Json>)
    ensures forall v :: v in r <==> exists i :: 0 <= i < |nodes| && RequireOf(nodes[i]) == Some(v)
  {
    if |nodes| == 0 then []
    else
      var rest := RequireCalls(nodes[1..]);
      assert forall i :: 1 <= i < |nodes| ==> nodes[i] == nodes[1..][i - 1];
      (if RequireOf(nodes[0]).Some? then [RequireOf(nodes[0]).value] else []) + rest
  }

  /** The module specifiers of imports and exports, in walk order. */
  function Specifiers(nodes: seq<Node>): (r: seq<Json>)
    ensures forall v :: v in r <==> ModuleSpecifier(v) in nodes
  {
    if |nodes| == 0 then []
    else
      var rest := Specifiers(nodes[1..]);
      assert nodes == [nodes[0]] + nodes[1..];
      (if nodes[0].ModuleSpecifier? then [nodes[0].value] else []) + rest
  }

  /**
   * The `Buffer` usage walk: `undefined` at the start, `true` on a use of the name while
   * it is not `false`, `false` for good on a function declaration with that name.
   */
  function GlobalState(nodes: seq<Node>, name: string, state: Option<bool>): (r: Option<bool>)
  {
    if |nodes| == 0 then state
    else
      var n := nodes[0];
      var next :=
        if (n.IdentifierUse? || n.BindingName?) && n.name == name && state != Some(false) then Some(true)
        else if n.FunctionDeclaration? && n.declared == Some(name) then Some(false)
        else state;
      GlobalState(nodes[1..], name, next)
  }

  /** A node that uses `name` as an identifier or binding. */
  predicate Uses(n: Node, name: string) {
    (n.IdentifierUse? || n.BindingName?) && n.name == name
  }

  /** A node that declares a function called `name`. */
  predicate Declares(n: Node, name: string) {
    n.FunctionDeclaration? && n.declared == Some(name)
  }

  /** Some node of the walk uses `name`. */
  predicate UsedIn(nodes: seq<Node>, name: string) {
    exists i :: 0 <= i < |nodes| && Uses(nodes[i], name)
  }

  /** Some node of the walk declares a function called `name`. */
  predicate DeclaredIn(nodes: seq<Node>, name: string) {
    exists i :: 0 <= i < |nodes| && Declares(nodes[i], name)
  }

  /**
   * The global counts as used exactly when a walk sees a use of the name and no function
   * declaration with that name (before or after the use).
   */
  lemma {:induction false} GlobalStateUsed(nodes: seq<Node>, name: string, state: Option<bool>)
    ensures GlobalState(nodes, name, state) == Some(true) <==>
      (state == Some(true) || UsedIn(nodes, name)) && state != Some(false) && !DeclaredIn(nodes, name)
  {
    if |nodes| > 0 {
      var n := nodes[0];
      var next :=
        if Uses(n, name) && state != Some(false) then Some(true)
        else if Declares(n, name) then Some(false)
        else state;
      GlobalStateUsed(nodes[1..], name, next);
      assert forall i :: 1 <= i < |nodes| ==> nodes[i] == nodes[1..][i - 1];
      assert UsedIn(nodes, name) <==> Uses(n, name) || UsedIn(nodes[1..], name) by {
        if UsedIn(nodes, name) && !Uses(n, name) {
          var i :| 0 <= i < |nodes| && Uses(nodes[i], name);
          assert Uses(nodes[1..][i - 1], name);
        }
        if UsedIn(nodes[1..], name) {
          var i :| 0 <= i < |nodes[1..]| && Uses(nodes[1..][i], name);
          assert Uses(nodes[i + 1], name);
        }
      }
      assert DeclaredIn(nodes, name) <==> Declares(n, name) || DeclaredIn(nodes[1..], name) by {
        if DeclaredIn(nodes, name) && !Declares(n, name) {
          var i :| 0 <= i < |nodes| && Declares(nodes[i], name);
          assert Declares(nodes[1..][i - 1], name);
        }
        if DeclaredIn(nodes[1..], name) {
          var i :| 0 <= i < |nodes[1..]| && Declares(nodes[1..][i], name);
          assert Declares(nodes[i + 1], name);
        }
      }
      if Declares(n, name) {
        assert !Uses(n, name);
        GlobalStateFalse(nodes[1..], name);
      }
    }
  }

  /** Once `false`, the state stays `false`. */
  lemma {:induction false} GlobalStateFalse(nodes: seq<Node>, name: string)
    ensures GlobalState(nodes, name, Some(false)) == Some(false)
  {
    if |nodes| > 0 {
      GlobalStateFalse(nodes[1..], name);
    }
  }

  /** The walk of an ES module finished without error and met an import or export. */
  predicate IsModule(tree: Option<seq<Node>>) {
    tree.Some? && Throws !in tree.value
    && (ImportDeclaration in tree.value || ExportDeclaration in tree.value)
  }

  /**
   * The format detection, applied only when no format is given: a `System.register` call
   * after the leading comments and directives, then a module with an import or export,
   * then the CommonJS patterns, then the AMD pattern, and CommonJS when nothing matched.
   */
  function DetectFormat(src: Source, format: string): (r: string)
    ensures format != "" ==> r == format
    ensures format == "" ==> r in {"register", "esm", "cjs", "amd"}
    ensures format == "" && IsModule(src.moduleTree) ==> r in {"register", "esm"}
    ensures format == "" && r == "amd" ==> src.amdPattern && !src.requirePattern && !src.exportsPattern
  {
    if format != "" then format
    else if RegisterCall(src) then "register"
    else if IsModule(src.moduleTree) then "esm"
    else if src.requirePattern || src.exportsPattern then "cjs"
    else if src.amdPattern then "amd"
    else "cjs"
  }

  /** `System.register` follows the leading comments and directives. */
  predicate RegisterCall(src: Source) {
    Substr(src.text, src.leadingLength, 15) == "System.register"
  }

  /**
   * Each detected format, characterised by the tests that must fail before it and the one
   * that must succeed: the first test that matches wins.
   */
  lemma DetectionCascade(src: Source)
    ensures DetectFormat(src, "") == "register" <==> RegisterCall(src)
    ensures DetectFormat(src, "") == "esm" <==> !RegisterCall(src) && IsModule(src.moduleTree)
    ensures DetectFormat(src, "") == "amd" <==>
      !RegisterCall(src) && !IsModule(src.moduleTree) && !src.requirePattern && !src.exportsPattern && src.amdPattern
    ensures DetectFormat(src, "") == "cjs" <==>
      !RegisterCall(src) && !IsModule(src.moduleTree) && (src.requirePattern || src.exportsPattern || !src.amdPattern)
  {
  }

  /** `System.register` counts only right after the leading comments and directives. */
  lemma RegisterAfterLeadingParts(lead: string, rest: string, src: Source)
    requires src.text == lead + "System.register" + rest && src.leadingLength == |lead|
    ensures DetectFormat(src, "") == "register"
  {
    assert src.text[|lead|..|lead| + 15] == "System.register";
  }

  /**
   * The analysis of one file, given the format already known for it ("" for none).
   * CommonJS files report their distinct `require` literals and `Buffer` usage, ES modules
   * their distinct import and export specifiers; a file that does not parse, or any other
   * format, reports nothing.
   */
  function Transform(src: Source, format: string): (r: Analysis)
    ensures r.format == DetectFormat(src, format)
    ensures r.format == "cjs" && src.scriptTree.Some? ==>
      forall v :: v in r.required <==> v in RequireCalls(Walked(src.scriptTree.value))
    ensures r.format == "esm" && src.moduleTree.Some? ==>
      forall v :: v in r.required <==> v in Specifiers(Walked(src.moduleTree.value))
    ensures r.usesBuffer ==> r.format == "cjs" && src.scriptTree.Some?
    ensures r.format != "cjs" && r.format != "esm" ==> r.required == []
    ensures r.format == "cjs" && src.scriptTree.None? ==> r.required == [] && !r.usesBuffer
    ensures r.format == "esm" && src.moduleTree.None? ==> r.required == []
  {
    var f := DetectFormat(src, format);
    if f == "cjs" then
      if src.scriptTree.None? then Analysis([], f, false)
      else
        var nodes := Walked(src.scriptTree.value);
        Analysis(Collect([], RequireCalls(nodes)), f, GlobalState(nodes, "Buffer", None) == Some(true))
    else if f == "esm" then
      if src.moduleTree.None? then Analysis([], f, false)
      else Analysis(Collect([], Specifiers(Walked(src.moduleTree.value))), f, false)
    else Analysis([], f, false)
  }

  /** No module is reported twice. */
  lemma RequiredDistinct(src: Source, format: string)
    ensures Distinct(Transform(src, format).required)
  {
  }

  /**
   * A CommonJS file uses `Buffer` exactly when the walk, before any error, reaches a use
   * of the name and no function declaration called `Buffer`.
   */
  lemma UsesBufferIff(src: Source, format: string)
    requires DetectFormat(src, format) == "cjs" && src.scriptTree.Some?
    ensures var nodes := Walked(src.scriptTree.value);
      Transform(src, format).usesBuffer <==> UsedIn(nodes, "Buffer") && !DeclaredIn(nodes, "Buffer")
  {
    var nodes := Walked(src.scriptTree.value);
    GlobalStateUsed(nodes, "Buffer", None);
    assert Transform(src, format).usesBuffer == (GlobalState(nodes, "Buffer", None) == Some(true));
  }

  /**
   * The `require` list keeps the first occurrence of each module, in walk order: it is
   * the walk's list with every repeat of an earlier value removed.
   */
  function FirstOccurrences(vs: seq<Json>): (r: seq<Json>)
  {
    if |vs| == 0 then []
    else
      var init := FirstOccurrences(vs[..|vs| - 1]);
      if vs[|vs| - 1] in vs[..|vs| - 1] then init else init + [vs[|vs| - 1]]
  }

  lemma {:induction false} FirstOccurrencesElements(vs: seq<Json>)
    ensures forall x :: x in FirstOccurrences(vs) <==> x in vs
  {
    if |vs| > 0 {
      FirstOccurrencesElements(vs[..|vs| - 1]);
      assert vs == vs[..|vs| - 1] + [vs[|vs| - 1]];
    }
  }

  /** Collecting `a` then `b` is collecting `a + b`. */
  lemma {:induction false} CollectAppend(list: seq<Json>, a: seq<Json>, b: seq<Json>)
    requires Distinct(list)
    ensures Collect(list, a + b) == Collect(Collect(list, a), b)
    decreases |a|
  {
    if |a| > 0 {
      assert (a + b)[1..] == a[1..] + b;
      assert (a + b)[0] == a[0];
      CollectAppend(PushUnique(list, a[0]), a[1..], b);
    } else {
      assert a + b == b;
    }
  }

  /** The push-unless-present loop computes the first occurrences of its input. */
  lemma {:induction false} CollectIsFirstOccurrences(vs: seq<Json>)
    ensures Collect([], vs) == FirstOccurrences(vs)
  {
    if |vs| > 0 {
      var init, last := vs[..|vs| - 1], vs[|vs| - 1];
      CollectIsFirstOccurrences(init);
      CollectSnoc(init, last);
      assert vs == init + [last];
    }
  }

  /**
   * The modules a file reports are those its walk meets before any error, each at its
   * first occurrence, in walk order.
   */
  lemma RequiredInWalkOrder(src: Source, format: string)
    ensures var r := Transform(src, format);
      && (r.format == "cjs" && src.scriptTree.Some? ==>
            r.required == FirstOccurrences(RequireCalls(Walked(src.scriptTree.value))))
      && (r.format == "esm" && src.moduleTree.Some? ==>
            r.required == FirstOccurrences(Specifiers(Walked(src.moduleTree.value))))
  {
    var f := DetectFormat(src, format);
    if f == "cjs" && src.scriptTree.Some? {
      CollectIsFirstOccurrences(RequireCalls(Walked(src.scriptTree.value)));
    } else if f == "esm" && src.moduleTree.Some? {
      CollectIsFirstOccurrences(Specifiers(Walked(src.moduleTree.value)));
    }
  }

  /** One more value: the loop and the first occurrences both keep it exactly when it is new. */
  lemma CollectSnoc(init: seq<Json>, last: Json)
    requires Collect([], init) == FirstOccurrences(init)
    ensures Collect([], init + [last]) == FirstOccurrences(init + [last])
  {
    CollectAppend([], init, [last]);
    FirstOccurrencesElements(init);
    var c := Collect([], init);
    assert Collect(c, [last]) == Collect(PushUnique(c, last), []);
    assert (init + [last])[..|init|] == init;
  }

  /** The analysis of a file holding nothing: no requires, CommonJS, no `Buffer`. */
  function EmptyAnalysis(): (r: Analysis)
    ensures r.required == [] && r.format == "cjs" && !r.usesBuffer
  {
    Analysis([], "cjs", false)
  }
}
