/** The session registry: a capacity-100 LRU set of session tokens, each a
    50-character string drawn from a random ASCII-alphanumeric character stream.

    The operating system's random generator is an oracle: `Rng` is the infinite
    character stream it produces together with how much of it has been consumed. */
module Sessions {
  import opened Wrappers
  import Lru

  const Capacity: nat := 100
  const TokenLength: nat := 50

  /** The characters `gen_ascii_chars` draws from: A-Z, a-z and 0-9. */
  predicate IsAsciiAlphanumeric(c: char)
  {
    ('A' <= c <= 'Z') || ('a' <= c <= 'z') || ('0' <= c <= '9')
  }

  type AlnumChar = c: char | IsAsciiAlphanumeric(c) witness 'a'

  /** The I/O error reported when the random generator cannot be opened. */
  datatype IoError = IoError(message: string)

  /** The generator's character stream and the number of characters already drawn. */
  datatype Rng = Rng(chars: nat -> AlnumChar, drawn: nat)

  datatype Sessions = Sessions(rng: Rng, sessions: Lru.Lru)

  predicate Valid(s: Sessions)
  {
    Lru.Valid(s.sessions) && s.sessions.capacity == Capacity
  }

  /** The tokens currently held. */
  function Held(s: Sessions): set<string>
  {
    set t | t in s.sessions.recency
  }

  /** `Sessions::new`: fails exactly when the random generator cannot be opened,
      otherwise an empty registry of capacity 100. */
  function New(osRng: Result<nat -> AlnumChar, IoError>): (r: Result<Sessions, IoError>)
    ensures r.Success? <==> osRng.Success?
    ensures r.Failure? ==> r.error == osRng.error
    ensures r.Success? ==> Valid(r.value) && Held(r.value) == {} && r.value.rng.drawn == 0
  {
    match osRng
    case Failure(e) => Failure(e)
    case Success(chars) => Success(Sessions(Rng(chars, 0), Lru.New(Capacity)))
  }

  /** `create_session`: draws the next 50 characters as the token and inserts it. */
  method CreateSession(s: Sessions) returns (token: string, s': Sessions)
    requires Valid(s)
    ensures |token| == TokenLength
    ensures forall i :: 0 <= i < TokenLength ==> token[i] == s.rng.chars(s.rng.drawn + i)
    ensures forall i :: 0 <= i < |token| ==> IsAsciiAlphanumeric(token[i])
    ensures s'.rng.drawn == s.rng.drawn + TokenLength && s'.rng.chars == s.rng.chars
    ensures Valid(s') && |s'.sessions.recency| <= Capacity
    ensures token in Held(s')
    ensures forall t :: t in Held(s') ==> t == token || t in Held(s)
    ensures token in Held(s) || |Held(s)| < Capacity ==> Held(s') == Held(s) + {token}
    ensures token !in Held(s) && |Held(s)| == Capacity ==>
      Held(s') == Held(s) + {token} - {s.sessions.recency[0]}
    ensures s'.sessions == Lru.Insert(s.sessions, token)
  {
    token := "";
    var i := 0;
    while i < TokenLength
      invariant 0 <= i <= TokenLength
      invariant |token| == i
      invariant forall j :: 0 <= j < i ==> token[j] == s.rng.chars(s.rng.drawn + j)
    {
      token := token + [s.rng.chars(s.rng.drawn + i)];
      i := i + 1;
    }
    HeldSize(s.sessions.recency);
    s' := Sessions(Rng(s.rng.chars, s.rng.drawn + TokenLength), Lru.Insert(s.sessions, token));
  }

  /** `check_session`: whether the token is held. A held token becomes the most
      recently used one; nothing else changes. */
  method CheckSession(s: Sessions, id: string) returns (found: bool, s': Sessions)
    requires Valid(s)
    ensures found <==> id in Held(s)
    ensures Valid(s') && Held(s') == Held(s) && s'.rng == s.rng
    ensures found ==> s'.sessions.recency[|s'.sessions.recency| - 1] == id
    ensures !found ==> s' == s
    ensures (found, s'.sessions) == Lru.ContainsKey(s.sessions, id)
  {
    var r := Lru.ContainsKey(s.sessions, id);
    found := r.0;
    s' := Sessions(s.rng, r.1);
  }

  /** A distinct sequence has as many members as elements. */
  lemma {:induction false} HeldSize(recency: seq<string>)
    requires Lru.Distinct(recency)
    ensures |set t | t in recency| == |recency|
  {
    if |recency| > 0 {
      var rest := recency[1..];
      Lru.DistinctCons(recency[0], rest);
      assert recency == [recency[0]] + rest;
      HeldSize(rest);
      assert (set t | t in recency) == (set t | t in rest) + {recency[0]};
    }
  }
}
