/** Signed continuation tokens: a descriptor as canonical JSON, encoded and authenticated. */
module ContinuationTokens {
  import opened Wrappers
  import opened Texts
  import opened NumberText
  import opened JsonValues
  import opened JsonText
  import opened CanonicalJson
  import W = WorkflowMachine

  // ---------------------------------------------------------------- whole numbers as JSON numbers

  function NumberOf(n: nat): Number {
    if n == 0 then Zero else Decimal(false, WithoutTrailingZeros(NatText(n)), |NatText(n)|)
  }

  /** The value of a number that is a non-negative integer. */
  function WholeOf(x: Number): Option<nat> {
    match x
    case Zero => Some(0)
    case Decimal(negative, digits, point) =>
      if negative || point < |digits| || !AllDigits(digits) then None
      else Some(NatValue(digits + Zeros(point - |digits|)))
  }

  lemma {:induction false} NatTextLeads(n: nat)
    requires n > 0
    ensures NatText(n)[0] != ZERO
  {
    if n >= 10 {
      NatTextLeads(n / 10);
      assert NatText(n)[0] == NatText(n / 10)[0];
    }
  }

  lemma {:induction false} StripSplits(t: Text)
    ensures var w := WithoutTrailingZeros(t);
            && |w| <= |t| && t == w + Zeros(|t| - |w|) && (w != [] ==> w[|w| - 1] != ZERO)
  {
    if t != [] && t[|t| - 1] == ZERO {
      var init := t[..|t| - 1];
      StripSplits(init);
      var w := WithoutTrailingZeros(init);
      assert Zeros(|init| - |w|) + [ZERO] == Zeros(|t| - |w|);
      assert t == init + [ZERO];
      assert t == w + (Zeros(|init| - |w|) + [ZERO]);
    } else {
      assert t + Zeros(0) == t;
    }
  }

  lemma NumberOfIsExact(n: nat)
    ensures ValidNumber(NumberOf(n)) && WholeOf(NumberOf(n)) == Some(n)
  {
    if n > 0 {
      hide NatText, NatValue, Zeros, WithoutTrailingZeros;
      var t := NatText(n);
      var w := WithoutTrailingZeros(t);
      NatTextLeads(n);
      StripSplits(t);
      NatRoundTrip(n);
      ZerosAreZero(|t| - |w|);
      assert t[0] == (w + Zeros(|t| - |w|))[0];
      assert forall i :: 0 <= i < |w| ==> w[i] == t[i];
    }
  }

  lemma ZerosAreZero(n: nat)
    ensures forall i :: 0 <= i < n ==> Zeros(n)[i] == ZERO
  {}

  // ---------------------------------------------------------------- descriptors as JSON

  const ALLOWED_COMMANDS: Text := Word("allowedCommands")
  const CHECKPOINT_ID: Text := Word("checkpointId")
  const EXPIRES_AT: Text := Word("expiresAt")
  const FLOW_ID: Text := Word("flowId")
  const STATE_VERSION: Text := Word("stateVersion")
  const TENANT_ID: Text := Word("tenantId")
  const WORKFLOW_VERSION: Text := Word("workflowVersion")

  /** How commands and times are spelled, and how texts and digests are encoded and computed. */
  datatype Platform = Platform(
    commandName: W.FlowCommand -> Text, timeText: int -> Text, timeOf: Text -> Option<int>,
    encode: Text -> Text, decode: Text -> Text, mac: (Text, Text) -> Text,
    encodeDigest: Text -> Text, decodeDigest: Text -> Text)

  /** Times and digests read back, commands have different names, and encodings are non-empty and free of dots. */
  ghost predicate Faithful(p: Platform) {
    && (forall t :: p.timeOf(p.timeText(t)) == Some(t))
    && (forall d :: p.decodeDigest(p.encodeDigest(d)) == d && DotFree(p.encodeDigest(d)) && p.encodeDigest(d) != [])
    && (forall t :: DotFree(p.encode(t)) && (t != [] ==> p.encode(t) != []))
  }

  predicate DotFree(t: Text) { forall i :: 0 <= i < |t| ==> t[i] != POINT }

  function CommandItems(p: Platform, commands: seq<W.FlowCommand>): Items {
    if commands == [] then NoItems else Item(String(p.commandName(commands[0])), CommandItems(p, commands[1..]))
  }

  /** An object from its keys and values, in order. */
  function FieldsOf(pairs: seq<(Text, Json)>): Fields {
    if pairs == [] then NoFields else Field(pairs[0].0, pairs[0].1, FieldsOf(pairs[1..]))
  }

  function Pairs(p: Platform, d: W.Descriptor): seq<(Text, Json)>
    requires d.stateVersion >= 0 && d.workflowVersion >= 0
  {
    [(ALLOWED_COMMANDS, Array(CommandItems(p, d.allowedCommands))),
     (CHECKPOINT_ID, if d.checkpoint.Some? then String(d.checkpoint.value) else Null),
     (EXPIRES_AT, String(p.timeText(d.expiresAt))),
     (FLOW_ID, String(d.flowId)),
     (STATE_VERSION, Json.Number(NumberOf(d.stateVersion))),
     (TENANT_ID, String(d.tenant)),
     (WORKFLOW_VERSION, Json.Number(NumberOf(d.workflowVersion)))]
  }

  function DescriptorJson(p: Platform, d: W.Descriptor): Json
    requires d.stateVersion >= 0 && d.workflowVersion >= 0
  {
    Object(FieldsOf(Pairs(p, d)))
  }

  ghost predicate GoodPairs(pairs: seq<(Text, Json)>) {
    && (forall i :: 0 <= i < |pairs| ==>
          pairs[i].0 != PROTO && Valid(pairs[i].1) && Supported(pairs[i].1) && Plain(pairs[i].1))
    && (forall i, j :: 0 <= i < j < |pairs| ==> pairs[i].0 != pairs[j].0)
  }

  lemma {:induction false} FieldsOfPairs(pairs: seq<(Text, Json)>)
    requires GoodPairs(pairs)
    ensures var f := FieldsOf(pairs);
            && ValidFields(f) && SupportedFields(f) && PlainFields(f)
            && (forall k :: k in Keys(f) <==> exists i :: 0 <= i < |pairs| && pairs[i].0 == k)
            && (forall i :: 0 <= i < |pairs| ==> pairs[i].0 in Keys(f) && Get(f, pairs[i].0) == pairs[i].1)
  {
    hide Valid, Supported, Plain;
    if pairs != [] {
      FieldsOfPairs(pairs[1..]);
      assert forall i :: 0 <= i < |pairs| - 1 ==> pairs[1..][i] == pairs[i + 1];
      forall i | 0 < i < |pairs| ensures pairs[i] == pairs[1..][i - 1] {}
    }
  }

  lemma {:induction false} CommandItemsAreValid(p: Platform, commands: seq<W.FlowCommand>)
    ensures var items := CommandItems(p, commands); ValidItems(items) && SupportedItems(items) && PlainItems(items)
  {
    if commands != [] {
      CommandItemsAreValid(p, commands[1..]);
    }
  }

  // ---------------------------------------------------------------- signing

  datatype TokenError =
    | SecretTooShort | Malformed | SignatureInvalid | DescriptorInvalid | TokenExpired

  const MIN_SECRET: nat := 16

  /** The first part of a text up to a dot, and what follows the dot if there is one. */
  function SplitDot(t: Text): (Text, Option<Text>) {
    var i := Find(t, POINT);
    if i < |t| then (t[..i], Some(t[i + 1..])) else (t, None)
  }

  function Sign(p: Platform, json: Json, secret: Text): Result<Text, TokenError>
    requires Valid(json) && Supported(json)
  {
    if |secret| < MIN_SECRET then Err(SecretTooShort)
    else
      var body := p.encode(Canonical(json).value);
      Ok(body + [POINT] + p.encodeDigest(p.mac(secret, body)))
  }

  // ---------------------------------------------------------------- verification of a token

  function StringAt(f: Fields, key: Text): Option<Text> {
    if key in Keys(f) && Get(f, key).String? then Some(Get(f, key).text) else None
  }

  function WholeAt(f: Fields, key: Text): Option<nat> {
    if key in Keys(f) && Get(f, key).Number? then WholeOf(Get(f, key).number) else None
  }

  predicate KnownCommands(p: Platform, items: Items) {
    items.Item? ==> items.head.String? && Known(p, items.head.text) && KnownCommands(p, items.tail)
  }

  predicate Known(p: Platform, name: Text) {
    exists c: W.FlowCommand :: p.commandName(c) == name
  }

  /** Every field has the required shape and the time of expiry is a time. */
  predicate Acceptable(p: Platform, f: Fields) {
    && StringAt(f, TENANT_ID).Some? && !Blank(StringAt(f, TENANT_ID).value)
    && StringAt(f, FLOW_ID).Some? && !Blank(StringAt(f, FLOW_ID).value)
    && WholeAt(f, WORKFLOW_VERSION).Some? && WholeAt(f, WORKFLOW_VERSION).value >= 1
    && WholeAt(f, STATE_VERSION).Some? && WholeAt(f, STATE_VERSION).value >= 1
    && CHECKPOINT_ID in Keys(f) && (Get(f, CHECKPOINT_ID).Null? || Get(f, CHECKPOINT_ID).String?)
    && ALLOWED_COMMANDS in Keys(f) && Get(f, ALLOWED_COMMANDS).Array?
    && KnownCommands(p, Get(f, ALLOWED_COMMANDS).items)
    && StringAt(f, EXPIRES_AT).Some? && p.timeOf(StringAt(f, EXPIRES_AT).value).Some?
  }

  function Verify(p: Platform, token: Text, secret: Text, now: int): Result<Fields, TokenError> {
    var (body, more) := SplitDot(token);
    var (signature, extra) := SplitDot(if more.Some? then more.value else []);
    if body == [] || signature == [] || (extra.Some? && SplitDot(extra.value).0 != []) then Err(Malformed)
    else if p.decodeDigest(signature) != p.mac(secret, body) then Err(SignatureInvalid)
    else
      var parsed := Parse(p.decode(body));
      if parsed.None? || parsed.value.1 != [] || !parsed.value.0.Object? then Err(DescriptorInvalid)
      else
        var f := parsed.value.0.fields;
        if !Acceptable(p, f) then Err(DescriptorInvalid)
        else if p.timeOf(StringAt(f, EXPIRES_AT).value).value <= now then Err(TokenExpired)
        else Ok(f)
  }

  lemma SplitJoined(a: Text, b: Text)
    requires DotFree(a)
    ensures SplitDot(a + [POINT] + b) == (a, Some(b))
  {
    var t := a + [POINT] + b;
    FindAt(t, POINT, |a|);
    assert t[..|a|] == a && t[|a| + 1..] == b;
  }

  lemma SplitWhole(a: Text)
    requires DotFree(a)
    ensures SplitDot(a) == (a, None)
  {
    FindAt(a, POINT, |a|);
  }

  // ---------------------------------------------------------------- what a signed token says

  ghost predicate Describable(d: W.Descriptor) {
    d.stateVersion >= 1 && d.workflowVersion >= 1 && !Blank(d.tenant) && !Blank(d.flowId)
  }

  lemma PairsAreGood(p: Platform, d: W.Descriptor)
    requires Describable(d)
    ensures GoodPairs(Pairs(p, d))
  {
    CommandItemsAreValid(p, d.allowedCommands);
    NumberOfIsExact(d.stateVersion);
    NumberOfIsExact(d.workflowVersion);
    hide NumberOf, CommandItems, ValidNumber;
    var pairs := Pairs(p, d);
    assert forall i :: 0 <= i < 7 ==> Valid(pairs[i].1) && Supported(pairs[i].1) && Plain(pairs[i].1);
    KeysDiffer(p, d);
  }

  lemma KeysDiffer(p: Platform, d: W.Descriptor)
    requires d.stateVersion >= 0 && d.workflowVersion >= 0
    ensures var pairs := Pairs(p, d);
            && (forall i :: 0 <= i < |pairs| ==> pairs[i].0 != PROTO)
            && (forall i, j :: 0 <= i < j < |pairs| ==> pairs[i].0 != pairs[j].0)
  {
    hide NumberOf, CommandItems;
    assert ALLOWED_COMMANDS[0] == 97 && CHECKPOINT_ID[0] == 99 && EXPIRES_AT[0] == 101 && FLOW_ID[0] == 102;
    assert STATE_VERSION[0] == 115 && TENANT_ID[0] == 116 && WORKFLOW_VERSION[0] == 119 && PROTO[0] == 95;
  }

  lemma {:induction false} CommandItemsAreNormal(p: Platform, commands: seq<W.FlowCommand>)
    ensures NormalizeItems(CommandItems(p, commands)) == CommandItems(p, commands)
    ensures KnownCommands(p, CommandItems(p, commands))
  {
    if commands != [] {
      CommandItemsAreNormal(p, commands[1..]);
      assert Known(p, p.commandName(commands[0]));
    }
  }

  /** What each field of the normal form of a descriptor holds. */
  lemma NormalFields(p: Platform, d: W.Descriptor)
    requires Describable(d)
    ensures var pairs := Pairs(p, d);
            var f := NormalizeFields(FieldsOf(pairs));
            forall i :: 0 <= i < |pairs| ==>
              pairs[i].0 in Keys(f) && Get(f, pairs[i].0) == Normalize(pairs[i].1)
  {
    hide Normalize, Pairs, NormalizeFields;
    var pairs := Pairs(p, d);
    PairsAreGood(p, d);
    FieldsOfPairs(pairs);
    NormalizeSorts(FieldsOf(pairs));
    assert forall i :: 0 <= i < |pairs| ==> pairs[i].0 in Keys(FieldsOf(pairs)) - {PROTO};
  }

  lemma DescriptorIsAcceptable(p: Platform, d: W.Descriptor)
    requires Faithful(p) && Describable(d)
    ensures var f := NormalizeFields(FieldsOf(Pairs(p, d)));
            Acceptable(p, f) && StringAt(f, EXPIRES_AT) == Some(p.timeText(d.expiresAt))
  {
    hide NumberOf, CommandItems, FieldsOf, NormalizeFields, WholeOf, Blank;
    var pairs := Pairs(p, d);
    NormalFields(p, d);
    NumberOfIsExact(d.stateVersion);
    NumberOfIsExact(d.workflowVersion);
    CommandItemsAreNormal(p, d.allowedCommands);
    assert pairs[0].0 == ALLOWED_COMMANDS && pairs[1].0 == CHECKPOINT_ID && pairs[2].0 == EXPIRES_AT;
    assert pairs[3].0 == FLOW_ID && pairs[4].0 == STATE_VERSION && pairs[5].0 == TENANT_ID;
    assert pairs[6].0 == WORKFLOW_VERSION;
  }

  lemma CanonicalIsNotEmpty(json: Json)
    requires Valid(json) && Supported(json) && json.Object?
    ensures Canonical(json).Some? && Canonical(json).value != []
  {
    NormalizeIsValid(json);
    var n := Normalize(json);
    assert n.Object? && Print(n)[0] == OPEN_OBJECT;
  }

  /** A token presented under the secret that signed it is accepted exactly until its descriptor expires, and yields
      the descriptor, up to key order. */
  lemma TokenRoundTrip(p: Platform, d: W.Descriptor, secret: Text, now: int)
    requires Faithful(p) && Describable(d) && |secret| >= MIN_SECRET
    requires var json := DescriptorJson(p, d);
             Valid(json) && Supported(json) && p.decode(p.encode(Canonical(json).value)) == Canonical(json).value
    ensures var json := DescriptorJson(p, d);
            var f := NormalizeFields(json.fields);
            && Verify(p, Sign(p, json, secret).value, secret, now) ==
               (if d.expiresAt <= now then Err(TokenExpired) else Ok(f))
            && Normalize(Object(f)) == Normalize(json)
  {
    hide Canonical, Parse, NormalizeFields, FieldsOf, Pairs, Acceptable, Plain, Content;
    var json := DescriptorJson(p, d);
    CanonicalIsNotEmpty(json);
    var text := Canonical(json).value;
    var body := p.encode(text);
    var signature := p.encodeDigest(p.mac(secret, body));
    SplitJoined(body, signature);
    SplitWhole(signature);
    CanonicalReadsBack(json);
    DescriptorContent(p, d);
    DescriptorIsAcceptable(p, d);
    NormalizeIsIdempotent(json);
  }

  lemma DescriptorContent(p: Platform, d: W.Descriptor)
    requires Describable(d)
    ensures Content(DescriptorJson(p, d)) == DescriptorJson(p, d)
  {
    PairsAreGood(p, d);
    FieldsOfPairs(Pairs(p, d));
    PlainIsContent(DescriptorJson(p, d));
  }

  /** A token is refused under any secret whose code for the body differs, and so is a body that was exchanged. */
  lemma ForeignTokensAreRefused(p: Platform, body: Text, digest: Text, secret: Text, now: int)
    requires Faithful(p) && DotFree(body) && digest != p.mac(secret, body)
    ensures Verify(p, body + [POINT] + p.encodeDigest(digest), secret, now).Err?
  {
    SplitJoined(body, p.encodeDigest(digest));
    SplitWhole(p.encodeDigest(digest));
  }

  /** A field that holds a text of more than spaces. */
  ghost predicate HoldsText(f: Fields, key: Text) {
    key in Keys(f) && Get(f, key).String? && exists i :: 0 <= i < |Get(f, key).text| && !IsSpace(Get(f, key).text[i])
  }

  /** A field that holds a whole number of at least one. */
  ghost predicate HoldsPositive(f: Fields, key: Text) {
    && key in Keys(f) && Get(f, key).Number? && WholeOf(Get(f, key).number).Some?
    && WholeOf(Get(f, key).number).value >= 1
  }

  ghost predicate InItems(items: Items, v: Json) { items.Item? && (items.head == v || InItems(items.tail, v)) }

  lemma {:induction false} KnownExactly(p: Platform, items: Items)
    ensures KnownCommands(p, items) <==>
              forall v :: InItems(items, v) ==> v.String? && exists c: W.FlowCommand :: p.commandName(c) == v.text
    decreases items
  {
    if items.Item? {
      KnownExactly(p, items.tail);
      assert InItems(items, items.head);
      assert forall v :: InItems(items, v) <==> v == items.head || InItems(items.tail, v);
    }
  }

  /** Every field that a descriptor needs: a tenant, a flow, positive versions, a checkpoint or none, only known
      commands, and a time of expiry that has not come. */
  ghost predicate SaysEverything(p: Platform, f: Fields, now: int) {
    && HoldsText(f, Word("tenantId")) && HoldsText(f, Word("flowId"))
    && HoldsPositive(f, Word("workflowVersion")) && HoldsPositive(f, Word("stateVersion"))
    && Word("checkpointId") in Keys(f)
    && (Get(f, Word("checkpointId")).Null? || Get(f, Word("checkpointId")).String?)
    && Word("allowedCommands") in Keys(f) && Get(f, Word("allowedCommands")).Array?
    && (forall v :: InItems(Get(f, Word("allowedCommands")).items, v) ==>
          v.String? && exists c: W.FlowCommand :: p.commandName(c) == v.text)
    && Word("expiresAt") in Keys(f) && Get(f, Word("expiresAt")).String?
    && var expiry := p.timeOf(Get(f, Word("expiresAt")).text); expiry.Some? && now < expiry.value
  }

  lemma SaysEverythingExactly(p: Platform, f: Fields, now: int)
    ensures SaysEverything(p, f, now) <==>
            Acceptable(p, f) && now < p.timeOf(StringAt(f, EXPIRES_AT).value).value
  {
    hide WholeOf, IsSpace, InItems;
    if ALLOWED_COMMANDS in Keys(f) && Get(f, ALLOWED_COMMANDS).Array? {
      KnownExactly(p, Get(f, ALLOWED_COMMANDS).items);
    }
    hide KnownCommands, Known;
    assert TENANT_ID == Word("tenantId") && FLOW_ID == Word("flowId") && STATE_VERSION == Word("stateVersion");
    assert WORKFLOW_VERSION == Word("workflowVersion") && CHECKPOINT_ID == Word("checkpointId");
    assert ALLOWED_COMMANDS == Word("allowedCommands") && EXPIRES_AT == Word("expiresAt");
    hide Word;
  }

  /** A token of two parts is accepted exactly when its second part is the code of the first under the secret, and the
      first decodes to an object, and nothing after it, that says everything. */
  lemma VerifyExactly(p: Platform, body: Text, signature: Text, secret: Text, now: int, f: Fields)
    requires DotFree(body) && DotFree(signature) && body != [] && signature != []
    ensures Verify(p, body + [POINT] + signature, secret, now) == Ok(f) <==>
              && p.decodeDigest(signature) == p.mac(secret, body)
              && Parse(p.decode(body)) == Some((Object(f), []))
              && SaysEverything(p, f, now)
  {
    hide Parse;
    SplitJoined(body, signature);
    SplitWhole(signature);
    SaysEverythingExactly(p, f, now);
    hide SaysEverything, SplitDot;
  }
}
