// pkg/ironic/secrets.go: the htpasswd entry of the API credentials secret.
// bcrypt and the Unicode tables are parameters, see Crypt.
module Htpasswd {
  import opened Options
  import opened Text

  // Hashing (password, salt), checking (hash, password) and unicode.IsLetter
  // or unicode.IsNumber. Hashing fails on passwords that bcrypt refuses.
  datatype Crypt = Crypt(
    hash: (string, string) -> Option<string>,
    matches: (string, string) -> bool,
    alphanumeric: char -> bool)
  {
    // bcrypt accepts its own hashes, and a colon is neither letter nor number.
    ghost predicate Lawful() {
      && (forall p, salt :: hash(p, salt).Some? ==>
            hash(p, salt).value != "" && matches(hash(p, salt).value, p))
      && !alphanumeric(':')
    }
  }

  type Data = map<string, string>

  const USERNAME := "username"
  const PASSWORD := "password"
  const HTPASSWD := "htpasswd"

  predicate Blank(c: char) {
    c in " \n\r\t"
  }

  function TrimLeft(s: string): string {
    if s != "" && Blank(s[0]) then TrimLeft(s[1..]) else s
  }

  function TrimRight(s: string): string {
    if s != "" && Blank(s[|s| - 1]) then TrimRight(s[..|s| - 1]) else s
  }

  function NormalizeSecretValue(value: string): string {
    TrimRight(TrimLeft(value))
  }

  predicate CheckValidUser(user: string, crypt: Crypt) {
    forall c | c in user :: crypt.alphanumeric(c) || c == '-' || c == '_'
  }

  function GenerateHtpasswd(username: string, password: string, crypt: Crypt, salt: string): Option<string> {
    var user := NormalizeSecretValue(username);
    if !CheckValidUser(user, crypt) then None
    else
      var hashed :- crypt.hash(NormalizeSecretValue(password), salt);
      Some(user + ":" + hashed)
  }

  function HtpasswdFromSecret(data: Data, crypt: Crypt, salt: string): Option<string> {
    if USERNAME !in data || PASSWORD !in data then None
    else GenerateHtpasswd(data[USERNAME], data[PASSWORD], crypt, salt)
  }

  predicate SecretNeedsUpdating(data: Data, crypt: Crypt) {
    var existing := Cut(if HTPASSWD in data then data[HTPASSWD] else "", ':');
    !(&& existing.Some? && existing.value.0 != "" && existing.value.1 != ""
      && USERNAME in data && NormalizeSecretValue(data[USERNAME]) == existing.value.0
      && PASSWORD in data && crypt.matches(existing.value.1, NormalizeSecretValue(data[PASSWORD])))
  }

  datatype Update = Unchanged | Changed(data: Data) | Refused

  function Updated(data: Data, crypt: Crypt, salt: string): Update {
    if !SecretNeedsUpdating(data, crypt) then Unchanged
    else
      match HtpasswdFromSecret(data, crypt, salt)
      case None => Refused
      case Some(entry) => Changed(data[HTPASSWD := entry])
  }

  // The in-memory copy of a secret that the controller works on.
  class SecretObject {
    var data: Data

    constructor (data: Data)
      ensures this.data == data
    {
      this.data := data;
    }

    method UpdateSecret(crypt: Crypt, salt: string) returns (changed: bool, failed: bool)
      modifies this
      ensures match Updated(old(data), crypt, salt)
        case Unchanged => !changed && !failed && data == old(data)
        case Changed(d) => changed && !failed && data == d
        case Refused => !changed && failed && data == old(data)
    {
      if !SecretNeedsUpdating(data, crypt) {
        return false, false;
      }
      var entry := HtpasswdFromSecret(data, crypt, salt);
      if entry.None? {
        return false, true;
      }
      data := data[HTPASSWD := entry.value];
      return true, false;
    }
  }

  /* ---- Properties ---- */

  // No update is due exactly when the entry lets the current credentials in.
  ghost predicate Authenticates(entry: string, user: string, password: string, crypt: Crypt) {
    exists hashed :: entry == user + [':'] + hashed && hashed != "" && crypt.matches(hashed, password)
  }

  lemma UpToDateMeansAuthenticates(data: Data, crypt: Crypt)
    requires USERNAME in data && PASSWORD in data && HTPASSWD in data
    requires ':' !in NormalizeSecretValue(data[USERNAME])
    ensures !SecretNeedsUpdating(data, crypt)
       <==> NormalizeSecretValue(data[USERNAME]) != ""
            && Authenticates(data[HTPASSWD], NormalizeSecretValue(data[USERNAME]),
                             NormalizeSecretValue(data[PASSWORD]), crypt)
  {
    var user, password := NormalizeSecretValue(data[USERNAME]), NormalizeSecretValue(data[PASSWORD]);
    if !SecretNeedsUpdating(data, crypt) {
      assert data[HTPASSWD] == user + [':'] + Cut(data[HTPASSWD], ':').value.1;
    }
    if Authenticates(data[HTPASSWD], user, password, crypt) {
      var hashed :| data[HTPASSWD] == user + [':'] + hashed && hashed != "" && crypt.matches(hashed, password);
      CutFirst(user, ':', hashed);
    }
  }

  // A successful update touches the htpasswd entry only, and the next update
  // finds nothing to do exactly when the trimmed user name is not empty: a
  // blank user name makes the controller rewrite the secret on every pass.
  lemma UpdateSettles(data: Data, crypt: Crypt, salt: string, nextSalt: string)
    requires crypt.Lawful()
    requires Updated(data, crypt, salt).Changed?
    ensures var after := Updated(data, crypt, salt).data;
      && HTPASSWD in after
      && after == data[HTPASSWD := after[HTPASSWD]]
      && (Updated(after, crypt, nextSalt).Unchanged? <==> NormalizeSecretValue(data[USERNAME]) != "")
  {
    var user := NormalizeSecretValue(data[USERNAME]);
    var hashed := crypt.hash(NormalizeSecretValue(data[PASSWORD]), salt).value;
    assert ':' !in user;
    CutFirst(user, ':', hashed);
    assert Updated(data, crypt, salt).data[HTPASSWD] == user + [':'] + hashed;
  }

  // A due update is refused exactly when credentials are missing, the trimmed
  // user name has a character other than letters, numbers, dashes and
  // underscores, or the trimmed password cannot be hashed.
  lemma RefusedCredentials(data: Data, crypt: Crypt, salt: string)
    requires SecretNeedsUpdating(data, crypt)
    ensures Updated(data, crypt, salt).Refused? <==>
      || "username" !in data || "password" !in data
      || (exists c | c in NormalizeSecretValue(data["username"]) :: !crypt.alphanumeric(c) && c != '-' && c != '_')
      || crypt.hash(NormalizeSecretValue(data["password"]), salt).None?
  {
  }

  /* ---- What trimming leaves ---- */

  ghost predicate AllBlank(s: string) {
    forall c | c in s :: c == ' ' || c == '\n' || c == '\r' || c == '\t'
  }

  ghost predicate Sound(s: string) {
    s == "" || (!AllBlank([s[0]]) && !AllBlank([s[|s| - 1]]))
  }

  // All blanks around the value are gone, and nothing else.
  ghost predicate TrimmedTo(value: string, core: string) {
    Sound(core) && exists before, after :: value == before + core + after && AllBlank(before) && AllBlank(after)
  }

  lemma {:induction false} TrimLeftDrops(before: string, core: string)
    requires AllBlank(before) && (core == "" || !AllBlank([core[0]]))
    ensures TrimLeft(before + core) == core
  {
    if before != "" {
      assert (before + core)[1..] == before[1..] + core;
      assert (before + core)[0] in before;
      assert forall c | c in before[1..] :: c in before;
      TrimLeftDrops(before[1..], core);
    } else {
      assert before + core == core;
    }
  }

  lemma {:induction false} TrimRightDrops(core: string, after: string)
    requires AllBlank(after) && (core == "" || !AllBlank([core[|core| - 1]]))
    ensures TrimRight(core + after) == core
  {
    if after != "" {
      var n := |after| - 1;
      assert (core + after)[..|core + after| - 1] == core + after[..n];
      assert (core + after)[|core + after| - 1] == after[n] && after[n] in after;
      assert forall c | c in after[..n] :: c in after;
      TrimRightDrops(core, after[..n]);
    } else {
      assert core + after == core;
    }
  }

  lemma {:induction false} TrimLeftLeaves(s: string) returns (before: string)
    ensures s == before + TrimLeft(s) && AllBlank(before)
    ensures TrimLeft(s) == "" || !AllBlank([TrimLeft(s)[0]])
  {
    before := "";
    if s != "" && Blank(s[0]) {
      var rest := TrimLeftLeaves(s[1..]);
      before := [s[0]] + rest;
    } else if s != "" {
      assert s[0] in [s[0]];
    }
  }

  lemma {:induction false} TrimRightLeaves(s: string) returns (after: string)
    ensures s == TrimRight(s) + after && AllBlank(after)
    ensures TrimRight(s) == "" || !AllBlank([TrimRight(s)[|TrimRight(s)| - 1]])
  {
    after := "";
    if s != "" && Blank(s[|s| - 1]) {
      var rest := TrimRightLeaves(s[..|s| - 1]);
      after := rest + [s[|s| - 1]];
    } else if s != "" {
      assert s[|s| - 1] in [s[|s| - 1]];
    }
  }

  lemma TrimmingLeaves(value: string, core: string)
    ensures NormalizeSecretValue(value) == core <==> TrimmedTo(value, core)
  {
    var before := TrimLeftLeaves(value);
    var left := TrimLeft(value);
    var after := TrimRightLeaves(left);
    var trimmed := TrimRight(left);
    assert value == before + trimmed + after;
    if trimmed != "" {
      assert trimmed[0] == left[0];
    }
    hide TrimLeft, TrimRight;
    assert TrimmedTo(value, trimmed);
    if TrimmedTo(value, core) {
      var a, b :| value == a + core + b && AllBlank(a) && AllBlank(b);
      OneTrimming(value, core, a, b);
    }
  }

  lemma OneTrimming(value: string, core: string, before: string, after: string)
    requires Sound(core) && value == before + core + after && AllBlank(before) && AllBlank(after)
    ensures NormalizeSecretValue(value) == core
  {
    if core == "" {
      TrimLeftDrops(value, "");
      assert value + "" == value;
      assert TrimRight("") == "";
    } else {
      assert value == before + (core + after);
      TrimLeftDrops(before, core + after);
      TrimRightDrops(core, after);
    }
  }
}
