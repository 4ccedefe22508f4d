/**
 What is written for each form of placeholder, spelled out: names, defaults, and every error.
 */
module EnvLaws {
  import opened Wrappers
  import opened Strings
  import opened EnvExpand
  import opened ExpandJoin

  function Braced(token: string): string {
    ['$', '{'] + token + ['}']
  }

  function WithDefault(name: string, default: string): string {
    name + [':', '-'] + default
  }

  // ----- One step, and the rest of the text -----

  lemma AfterStep(mode: Mode, s: string, post: string, env: Env, step: Advance)
    requires s != [] && AdvanceFrom(mode, s, 0, env) == Ok(step) && Behind(s, step.index, post)
    ensures Expanded(mode, s, 0, env) == Then(Ok(step.emitted), Expanded(step.mode, post, 0, env))
  {
    var writer := FromEnv(env);
    WrittenFromEnv(step.mode, s, step.index, env);
    WrittenFromEnv(step.mode, post, 0, env);
    WrittenBehind(step.mode, s, step.index, post, 0, writer, step.index);
  }

  lemma BracedParts(token: string, post: string)
    requires '}' !in token
    ensures var s := Braced(token) + post;
            && Opens(s, 0, '{') && !Opens(s, 0, '$') && Find(s, 2, '}') == Some(|token| + 2)
            && s[2..|token| + 2] == token && Behind(s, |token| + 3, post)
  {
    var s := Braced(token) + post;
    forall k | 2 <= k < |token| + 2 ensures s[k] != '}' {
      assert s[k] == token[k - 2];
    }
    FindIs(s, 2, '}', |token| + 2);
  }

  // A placeholder with a value writes it escaped and goes on; one without fails.
  lemma BracedExpands(token: string, post: string, env: Env)
    requires '}' !in token
    ensures Expanded(Inside, Braced(token) + post, 0, env)
         == if Resolve(token, env).Err? then Err(Resolve(token, env).error)
            else Then(Ok(Escaped(Resolve(token, env).value)), Expanded(Inside, post, 0, env))
  {
    var s := Braced(token) + post;
    BracedParts(token, post);
    var value := Resolve(token, env);
    if value.Ok? {
      AfterStep(Inside, s, post, env, Advance(|token| + 3, Escaped(value.value), Inside));
    }
  }

  // ----- Where the default starts -----

  // No `:-` within.
  ghost predicate Undivided(name: string) {
    forall i | 0 <= i < |name| - 1 :: !(name[i] == ':' && name[i + 1] == '-')
  }

  lemma NameIsUndivided(name: string)
    requires IsName(name)
    ensures Undivided(name) && ':' !in name && '}' !in name
  {
    forall i | 0 <= i < |name| ensures name[i] != ':' && name[i] != '}' {
      assert IsNameChar(name[i]);
    }
  }

  lemma NoDefault(name: string)
    requires Undivided(name)
    ensures FindDefault(name) == None
  {
  }

  // Only the first `:-` divides, whatever the default holds.
  lemma DefaultStarts(name: string, default: string)
    requires Undivided(name)
    ensures FindDefault(WithDefault(name, default)) == Some(|name|)
    ensures WithDefault(name, default)[..|name|] == name
    ensures WithDefault(name, default)[|name| + 2..] == default
  {
    var token := WithDefault(name, default);
    assert token[|name|] == ':' && token[|name| + 1] == '-';
  }

  lemma InvalidResolves(token: string, name: string, env: Env)
    requires !IsName(name)
    requires match FindDefault(token) case None => token == name case Some(k) => token[..k] == name
    ensures Resolve(token, env) == Err(InvalidPlaceholder)
  {
    var split := FindDefault(token);
    var used := if split.Some? then token[..split.value] else token;
    assert used == name;
  }

  // ----- The laws -----

  // A variable that is set: its value, whether or not there is a default.
  lemma SetVariable(name: string, default: string, value: string, post: string, env: Env)
    requires IsName(name) && '}' !in default && name in env && env[name] == Unicode(value)
    ensures Expanded(Inside, Braced(name) + post, 0, env)
         == Then(Ok(Escaped(value)), Expanded(Inside, post, 0, env))
    ensures Expanded(Inside, Braced(WithDefault(name, default)) + post, 0, env)
         == Then(Ok(Escaped(value)), Expanded(Inside, post, 0, env))
  {
    NameIsUndivided(name);
    NoDefault(name);
    DefaultStarts(name, default);
    BracedExpands(name, post, env);
    BracedExpands(WithDefault(name, default), post, env);
  }

  // A variable that is not set: the default, or an error without one.
  lemma UnsetVariable(name: string, default: string, post: string, env: Env)
    requires IsName(name) && '}' !in default && name !in env
    ensures Expanded(Inside, Braced(name) + post, 0, env) == Err(NotSet)
    ensures Expanded(Inside, Braced(WithDefault(name, default)) + post, 0, env)
         == Then(Ok(Escaped(default)), Expanded(Inside, post, 0, env))
  {
    NameIsUndivided(name);
    NoDefault(name);
    DefaultStarts(name, default);
    BracedExpands(name, post, env);
    BracedExpands(WithDefault(name, default), post, env);
  }

  // A value that is not Unicode is an error; the default does not help.
  lemma GarbledVariable(name: string, default: string, post: string, env: Env)
    requires IsName(name) && '}' !in default && name in env && env[name] == Garbled
    ensures Expanded(Inside, Braced(name) + post, 0, env) == Err(NotUnicode)
    ensures Expanded(Inside, Braced(WithDefault(name, default)) + post, 0, env) == Err(NotUnicode)
  {
    NameIsUndivided(name);
    NoDefault(name);
    DefaultStarts(name, default);
    BracedExpands(name, post, env);
    BracedExpands(WithDefault(name, default), post, env);
  }

  // Anything else in place of the name is an error.
  lemma InvalidName(name: string, default: string, post: string, env: Env)
    requires !IsName(name) && Undivided(name) && '}' !in name && '}' !in default
    ensures Expanded(Inside, Braced(name) + post, 0, env) == Err(InvalidPlaceholder)
    ensures Expanded(Inside, Braced(WithDefault(name, default)) + post, 0, env) == Err(InvalidPlaceholder)
  {
    NoDefault(name);
    DefaultStarts(name, default);
    InvalidResolves(name, name, env);
    InvalidResolves(WithDefault(name, default), name, env);
    BracedExpands(name, post, env);
    BracedExpands(WithDefault(name, default), post, env);
  }

  lemma UnterminatedPlaceholder(rest: string, env: Env)
    requires '}' !in rest
    ensures Expanded(Inside, ['$', '{'] + rest, 0, env) == Err(Unterminated)
  {
    var s := ['$', '{'] + rest;
    forall k | 2 <= k < |s| ensures s[k] != '}' {
      assert s[k] == rest[k - 2];
    }
    FindNone(s, 2, '}');
  }

  // Two dollars write one.
  lemma DoubledDollar(post: string, env: Env)
    ensures Expanded(Inside, ['$', '$'] + post, 0, env) == Then(Ok("$"), Expanded(Inside, post, 0, env))
  {
    AfterStep(Inside, ['$', '$'] + post, post, env, Advance(2, "$", Inside));
  }

  // Outside strings every character is copied, placeholders included.
  lemma OutsideIsCopied(c: char, post: string, env: Env)
    ensures Expanded(Outside, [c] + post, 0, env)
         == Then(Ok([c]), Expanded(if c == '"' then Inside else Outside, post, 0, env))
  {
    AfterStep(Outside, [c] + post, post, env, Advance(1, [c], Next(Outside, c)));
  }

  // So is everything after a backslash, and a dollar that opens nothing.
  lemma InsideIsCopied(c: char, post: string, env: Env)
    requires c == '$' ==> post == [] || (post[0] != '$' && post[0] != '{')
    ensures Expanded(Inside, [c] + post, 0, env)
         == Then(Ok([c]), Expanded(if c == '\\' then Escape else if c == '"' then Outside else Inside, post, 0, env))
    ensures Expanded(Escape, [c] + post, 0, env) == Then(Ok([c]), Expanded(Inside, post, 0, env))
  {
    AfterStep(Inside, [c] + post, post, env, Advance(1, [c], Next(Inside, c)));
    AfterStep(Escape, [c] + post, post, env, Advance(1, [c], Inside));
  }
}
