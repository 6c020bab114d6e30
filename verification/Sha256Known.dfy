/**
 The known answer of SHA-256 for the three ASCII letters a, b, c: the digest that
 FIPS 180-4 gives for it, in steps over schedule words and rounds.
 */
module Sha256Known {
  import opened Bytes
  import opened Sha256

  const ABC: seq<byte> := [0x61, 0x62, 0x63]

  ghost predicate FourWords(m: Block, t: nat, a: word, b: word, c: word, d: word) {
    && t + 4 <= 64 && Schedule(m, t) == a && Schedule(m, t + 1) == b
    && Schedule(m, t + 2) == c && Schedule(m, t + 3) == d
  }

  ghost predicate FourConstants(t: nat, a: word, b: word, c: word, d: word) {
    t + 4 <= 64 && K[t] == a && K[t + 1] == b && K[t + 2] == c && K[t + 3] == d
  }

  lemma NextWord(m: Block, t: nat, w2: word, w7: word, w15: word, w16: word, w: word)
    requires 16 <= t < 64
    requires Schedule(m, t - 2) == w2 && Schedule(m, t - 7) == w7
    requires Schedule(m, t - 15) == w15 && Schedule(m, t - 16) == w16
    requires Add(Add(Add(SSig1(w2), w7), SSig0(w15)), w16) == w
    ensures Schedule(m, t) == w
  {
    hide SSig0, SSig1, Add, BigEndian;
  }

  /** The state after t rounds on a block, from the initial hash value. */
  ghost predicate At(m: Block, t: nat, s: State) {
    t <= 64 && Rounds(m, H0, t) == s
  }

  lemma NextRound(m: Block, t: nat, s: State, k: word, w: word, x: word, y: word) returns (r: State)
    requires t < 64 && At(m, t, s) && K[t] == k && Schedule(m, t) == w
    requires Add(T1(s, k, w), T2(s)) == x && Add(s.d, T1(s, k, w)) == y
    ensures r == State(x, s.a, s.b, s.c, y, s.e, s.f, s.g) && At(m, t + 1, r)
  {
    r := State(x, s.a, s.b, s.c, y, s.e, s.f, s.g);
    hide T1, T2, Add, Schedule;
  }

  lemma Words16(m: Block)
    requires FourWords(m, 0, 0x61626380, 0x00000000, 0x00000000, 0x00000000)
    requires FourWords(m, 4, 0x00000000, 0x00000000, 0x00000000, 0x00000000)
    requires FourWords(m, 8, 0x00000000, 0x00000000, 0x00000000, 0x00000000)
    requires FourWords(m, 12, 0x00000000, 0x00000000, 0x00000000, 0x00000018)
    ensures FourWords(m, 16, 0x61626380, 0x000F0000, 0x7DA86405, 0x600003C6)
    ensures FourWords(m, 20, 0x3E9D7B78, 0x0183FC00, 0x12DCBFDB, 0xE2E2C38E)
  {
    hide Schedule;
    NextWord(m, 16, 0x00000000, 0x00000000, 0x00000000, 0x61626380, 0x61626380);
    NextWord(m, 17, 0x00000018, 0x00000000, 0x00000000, 0x00000000, 0x000F0000);
    NextWord(m, 18, 0x61626380, 0x00000000, 0x00000000, 0x00000000, 0x7DA86405);
    NextWord(m, 19, 0x000F0000, 0x00000000, 0x00000000, 0x00000000, 0x600003C6);
    NextWord(m, 20, 0x7DA86405, 0x00000000, 0x00000000, 0x00000000, 0x3E9D7B78);
    NextWord(m, 21, 0x600003C6, 0x00000000, 0x00000000, 0x00000000, 0x0183FC00);
    NextWord(m, 22, 0x3E9D7B78, 0x00000018, 0x00000000, 0x00000000, 0x12DCBFDB);
    NextWord(m, 23, 0x0183FC00, 0x61626380, 0x00000000, 0x00000000, 0xE2E2C38E);
  }

  lemma Words24(m: Block)
    requires FourWords(m, 8, 0x00000000, 0x00000000, 0x00000000, 0x00000000)
    requires FourWords(m, 12, 0x00000000, 0x00000000, 0x00000000, 0x00000018)
    requires FourWords(m, 16, 0x61626380, 0x000F0000, 0x7DA86405, 0x600003C6)
    requires FourWords(m, 20, 0x3E9D7B78, 0x0183FC00, 0x12DCBFDB, 0xE2E2C38E)
    ensures FourWords(m, 24, 0xC8215C1A, 0xB73679A2, 0xE5BC3909, 0x32663C5B)
    ensures FourWords(m, 28, 0x9D209D67, 0xEC8726CB, 0x702138A4, 0xD3B7973B)
  {
    hide Schedule;
    NextWord(m, 24, 0x12DCBFDB, 0x000F0000, 0x00000000, 0x00000000, 0xC8215C1A);
    NextWord(m, 25, 0xE2E2C38E, 0x7DA86405, 0x00000000, 0x00000000, 0xB73679A2);
    NextWord(m, 26, 0xC8215C1A, 0x600003C6, 0x00000000, 0x00000000, 0xE5BC3909);
    NextWord(m, 27, 0xB73679A2, 0x3E9D7B78, 0x00000000, 0x00000000, 0x32663C5B);
    NextWord(m, 28, 0xE5BC3909, 0x0183FC00, 0x00000000, 0x00000000, 0x9D209D67);
    NextWord(m, 29, 0x32663C5B, 0x12DCBFDB, 0x00000000, 0x00000000, 0xEC8726CB);
    NextWord(m, 30, 0x9D209D67, 0xE2E2C38E, 0x00000018, 0x00000000, 0x702138A4);
    NextWord(m, 31, 0xEC8726CB, 0xC8215C1A, 0x61626380, 0x00000018, 0xD3B7973B);
  }

  lemma Words32(m: Block)
    requires FourWords(m, 16, 0x61626380, 0x000F0000, 0x7DA86405, 0x600003C6)
    requires FourWords(m, 20, 0x3E9D7B78, 0x0183FC00, 0x12DCBFDB, 0xE2E2C38E)
    requires FourWords(m, 24, 0xC8215C1A, 0xB73679A2, 0xE5BC3909, 0x32663C5B)
    requires FourWords(m, 28, 0x9D209D67, 0xEC8726CB, 0x702138A4, 0xD3B7973B)
    ensures FourWords(m, 32, 0x93F5997F, 0x3B68BA73, 0xAFF4FFC1, 0xF10A5C62)
    ensures FourWords(m, 36, 0x0A8B3996, 0x72AF830A, 0x9409E33E, 0x24641522)
  {
    hide Schedule;
    NextWord(m, 32, 0x702138A4, 0xB73679A2, 0x000F0000, 0x61626380, 0x93F5997F);
    NextWord(m, 33, 0xD3B7973B, 0xE5BC3909, 0x7DA86405, 0x000F0000, 0x3B68BA73);
    NextWord(m, 34, 0x93F5997F, 0x32663C5B, 0x600003C6, 0x7DA86405, 0xAFF4FFC1);
    NextWord(m, 35, 0x3B68BA73, 0x9D209D67, 0x3E9D7B78, 0x600003C6, 0xF10A5C62);
    NextWord(m, 36, 0xAFF4FFC1, 0xEC8726CB, 0x0183FC00, 0x3E9D7B78, 0x0A8B3996);
    NextWord(m, 37, 0xF10A5C62, 0x702138A4, 0x12DCBFDB, 0x0183FC00, 0x72AF830A);
    NextWord(m, 38, 0x0A8B3996, 0xD3B7973B, 0xE2E2C38E, 0x12DCBFDB, 0x9409E33E);
    NextWord(m, 39, 0x72AF830A, 0x93F5997F, 0xC8215C1A, 0xE2E2C38E, 0x24641522);
  }

  lemma Words40(m: Block)
    requires FourWords(m, 24, 0xC8215C1A, 0xB73679A2, 0xE5BC3909, 0x32663C5B)
    requires FourWords(m, 28, 0x9D209D67, 0xEC8726CB, 0x702138A4, 0xD3B7973B)
    requires FourWords(m, 32, 0x93F5997F, 0x3B68BA73, 0xAFF4FFC1, 0xF10A5C62)
    requires FourWords(m, 36, 0x0A8B3996, 0x72AF830A, 0x9409E33E, 0x24641522)
    ensures FourWords(m, 40, 0x9F47BF94, 0xF0A64F5A, 0x3E246A79, 0x27333BA3)
    ensures FourWords(m, 44, 0x0C4763F2, 0x840ABF27, 0x7A290D5D, 0x065C43DA)
  {
    hide Schedule;
    NextWord(m, 40, 0x9409E33E, 0x3B68BA73, 0xB73679A2, 0xC8215C1A, 0x9F47BF94);
    NextWord(m, 41, 0x24641522, 0xAFF4FFC1, 0xE5BC3909, 0xB73679A2, 0xF0A64F5A);
    NextWord(m, 42, 0x9F47BF94, 0xF10A5C62, 0x32663C5B, 0xE5BC3909, 0x3E246A79);
    NextWord(m, 43, 0xF0A64F5A, 0x0A8B3996, 0x9D209D67, 0x32663C5B, 0x27333BA3);
    NextWord(m, 44, 0x3E246A79, 0x72AF830A, 0xEC8726CB, 0x9D209D67, 0x0C4763F2);
    NextWord(m, 45, 0x27333BA3, 0x9409E33E, 0x702138A4, 0xEC8726CB, 0x840ABF27);
    NextWord(m, 46, 0x0C4763F2, 0x24641522, 0xD3B7973B, 0x702138A4, 0x7A290D5D);
    NextWord(m, 47, 0x840ABF27, 0x9F47BF94, 0x93F5997F, 0xD3B7973B, 0x065C43DA);
  }

  lemma Words48(m: Block)
    requires FourWords(m, 32, 0x93F5997F, 0x3B68BA73, 0xAFF4FFC1, 0xF10A5C62)
    requires FourWords(m, 36, 0x0A8B3996, 0x72AF830A, 0x9409E33E, 0x24641522)
    requires FourWords(m, 40, 0x9F47BF94, 0xF0A64F5A, 0x3E246A79, 0x27333BA3)
    requires FourWords(m, 44, 0x0C4763F2, 0x840ABF27, 0x7A290D5D, 0x065C43DA)
    ensures FourWords(m, 48, 0xFB3E89CB, 0xCC7617DB, 0xB9E66C34, 0xA9993667)
    ensures FourWords(m, 52, 0x84BADEDD, 0xC21462BC, 0x1487472C, 0xB20F7A99)
  {
    hide Schedule;
    NextWord(m, 48, 0x7A290D5D, 0xF0A64F5A, 0x3B68BA73, 0x93F5997F, 0xFB3E89CB);
    NextWord(m, 49, 0x065C43DA, 0x3E246A79, 0xAFF4FFC1, 0x3B68BA73, 0xCC7617DB);
    NextWord(m, 50, 0xFB3E89CB, 0x27333BA3, 0xF10A5C62, 0xAFF4FFC1, 0xB9E66C34);
    NextWord(m, 51, 0xCC7617DB, 0x0C4763F2, 0x0A8B3996, 0xF10A5C62, 0xA9993667);
    NextWord(m, 52, 0xB9E66C34, 0x840ABF27, 0x72AF830A, 0x0A8B3996, 0x84BADEDD);
    NextWord(m, 53, 0xA9993667, 0x7A290D5D, 0x9409E33E, 0x72AF830A, 0xC21462BC);
    NextWord(m, 54, 0x84BADEDD, 0x065C43DA, 0x24641522, 0x9409E33E, 0x1487472C);
    NextWord(m, 55, 0xC21462BC, 0xFB3E89CB, 0x9F47BF94, 0x24641522, 0xB20F7A99);
  }

  lemma Words56(m: Block)
    requires FourWords(m, 40, 0x9F47BF94, 0xF0A64F5A, 0x3E246A79, 0x27333BA3)
    requires FourWords(m, 44, 0x0C4763F2, 0x840ABF27, 0x7A290D5D, 0x065C43DA)
    requires FourWords(m, 48, 0xFB3E89CB, 0xCC7617DB, 0xB9E66C34, 0xA9993667)
    requires FourWords(m, 52, 0x84BADEDD, 0xC21462BC, 0x1487472C, 0xB20F7A99)
    ensures FourWords(m, 56, 0xEF57B9CD, 0xEBE6B238, 0x9FE3095E, 0x78BC8D4B)
    ensures FourWords(m, 60, 0xA43FCF15, 0x668B2FF8, 0xEEABA2CC, 0x12B1EDEB)
  {
    hide Schedule;
    NextWord(m, 56, 0x1487472C, 0xCC7617DB, 0xF0A64F5A, 0x9F47BF94, 0xEF57B9CD);
    NextWord(m, 57, 0xB20F7A99, 0xB9E66C34, 0x3E246A79, 0xF0A64F5A, 0xEBE6B238);
    NextWord(m, 58, 0xEF57B9CD, 0xA9993667, 0x27333BA3, 0x3E246A79, 0x9FE3095E);
    NextWord(m, 59, 0xEBE6B238, 0x84BADEDD, 0x0C4763F2, 0x27333BA3, 0x78BC8D4B);
    NextWord(m, 60, 0x9FE3095E, 0xC21462BC, 0x840ABF27, 0x0C4763F2, 0xA43FCF15);
    NextWord(m, 61, 0x78BC8D4B, 0x1487472C, 0x7A290D5D, 0x840ABF27, 0x668B2FF8);
    NextWord(m, 62, 0xA43FCF15, 0xB20F7A99, 0x065C43DA, 0x7A290D5D, 0xEEABA2CC);
    NextWord(m, 63, 0x668B2FF8, 0xEF57B9CD, 0xFB3E89CB, 0x065C43DA, 0x12B1EDEB);
  }

  lemma Rounds0(m: Block)
    requires At(m, 0, H0)
    requires FourConstants(0, 0x428A2F98, 0x71374491, 0xB5C0FBCF, 0xE9B5DBA5)
    requires FourConstants(4, 0x3956C25B, 0x59F111F1, 0x923F82A4, 0xAB1C5ED5)
    requires FourWords(m, 0, 0x61626380, 0x00000000, 0x00000000, 0x00000000)
    requires FourWords(m, 4, 0x00000000, 0x00000000, 0x00000000, 0x00000000)
    ensures At(m, 8, State(0x85A07B5F, 0xE5030380, 0x2B4209F5, 0x04409A6A,
                           0x0C657A79, 0x9B27A401, 0x714260AD, 0x43ADA245))
  {
    hide Schedule, At, K;
    var s := H0;
    s := NextRound(m, 0, s, 0x428A2F98, 0x61626380, 0x5D6AEBCD, 0xFA2A4622);
    s := NextRound(m, 1, s, 0x71374491, 0x00000000, 0x5A6AD9AD, 0x78CE7989);
    s := NextRound(m, 2, s, 0xB5C0FBCF, 0x00000000, 0xC8C347A7, 0xF92939EB);
    s := NextRound(m, 3, s, 0xE9B5DBA5, 0x00000000, 0xD550F666, 0x24E00850);
    s := NextRound(m, 4, s, 0x3956C25B, 0x00000000, 0x04409A6A, 0x43ADA245);
    s := NextRound(m, 5, s, 0x59F111F1, 0x00000000, 0x2B4209F5, 0x714260AD);
    s := NextRound(m, 6, s, 0x923F82A4, 0x00000000, 0xE5030380, 0x9B27A401);
    s := NextRound(m, 7, s, 0xAB1C5ED5, 0x00000000, 0x85A07B5F, 0x0C657A79);
  }

  lemma Rounds8(m: Block)
    requires At(m, 8, State(0x85A07B5F, 0xE5030380, 0x2B4209F5, 0x04409A6A,
                           0x0C657A79, 0x9B27A401, 0x714260AD, 0x43ADA245))
    requires FourConstants(8, 0xD807AA98, 0x12835B01, 0x243185BE, 0x550C7DC3)
    requires FourConstants(12, 0x72BE5D74, 0x80DEB1FE, 0x9BDC06A7, 0xC19BF174)
    requires FourWords(m, 8, 0x00000000, 0x00000000, 0x00000000, 0x00000000)
    requires FourWords(m, 12, 0x00000000, 0x00000000, 0x00000000, 0x00000018)
    ensures At(m, 16, State(0xB0FA238E, 0xC0645FDE, 0xD932EB16, 0x87912990,
                           0x07590DCD, 0x0B92F20C, 0x745A48DE, 0x1E578218))
  {
    hide Schedule, At, K;
    var s := State(0x85A07B5F, 0xE5030380, 0x2B4209F5, 0x04409A6A,
                           0x0C657A79, 0x9B27A401, 0x714260AD, 0x43ADA245);
    s := NextRound(m, 8, s, 0xD807AA98, 0x00000000, 0x8E04ECB9, 0x32CA2D8C);
    s := NextRound(m, 9, s, 0x12835B01, 0x00000000, 0x8C87346B, 0x1CC92596);
    s := NextRound(m, 10, s, 0x243185BE, 0x00000000, 0x4798A3F4, 0x436B23E8);
    s := NextRound(m, 11, s, 0x550C7DC3, 0x00000000, 0xF71FC5A9, 0x816FD6E9);
    s := NextRound(m, 12, s, 0x72BE5D74, 0x00000000, 0x87912990, 0x1E578218);
    s := NextRound(m, 13, s, 0x80DEB1FE, 0x00000000, 0xD932EB16, 0x745A48DE);
    s := NextRound(m, 14, s, 0x9BDC06A7, 0x00000000, 0xC0645FDE, 0x0B92F20C);
    s := NextRound(m, 15, s, 0xC19BF174, 0x00000018, 0xB0FA238E, 0x07590DCD);
  }

  lemma Rounds16(m: Block)
    requires At(m, 16, State(0xB0FA238E, 0xC0645FDE, 0xD932EB16, 0x87912990,
                           0x07590DCD, 0x0B92F20C, 0x745A48DE, 0x1E578218))
    requires FourConstants(16, 0xE49B69C1, 0xEFBE4786, 0x0FC19DC6, 0x240CA1CC)
    requires FourConstants(20, 0x2DE92C6F, 0x4A7484AA, 0x5CB0A9DC, 0x76F988DA)
    requires FourWords(m, 16, 0x61626380, 0x000F0000, 0x7DA86405, 0x600003C6)
    requires FourWords(m, 20, 0x3E9D7B78, 0x0183FC00, 0x12DCBFDB, 0xE2E2C38E)
    ensures At(m, 24, State(0xC5D53D8D, 0xA7A3623F, 0xC2606D6D, 0x9DC68B63,
                           0xAA47C347, 0x49F5114A, 0xE1257970, 0x8ADA8930))
  {
    hide Schedule, At, K;
    var s := State(0xB0FA238E, 0xC0645FDE, 0xD932EB16, 0x87912990,
                           0x07590DCD, 0x0B92F20C, 0x745A48DE, 0x1E578218);
    s := NextRound(m, 16, s, 0xE49B69C1, 0x61626380, 0x21DA9A9B, 0x8034229C);
    s := NextRound(m, 17, s, 0xEFBE4786, 0x000F0000, 0xC2FBD9D1, 0x846EE454);
    s := NextRound(m, 18, s, 0x0FC19DC6, 0x7DA86405, 0xFE777BBF, 0xCC899961);
    s := NextRound(m, 19, s, 0x240CA1CC, 0x600003C6, 0xE1F20C33, 0xB0638179);
    s := NextRound(m, 20, s, 0x2DE92C6F, 0x3E9D7B78, 0x9DC68B63, 0x8ADA8930);
    s := NextRound(m, 21, s, 0x4A7484AA, 0x0183FC00, 0xC2606D6D, 0xE1257970);
    s := NextRound(m, 22, s, 0x5CB0A9DC, 0x12DCBFDB, 0xA7A3623F, 0x49F5114A);
    s := NextRound(m, 23, s, 0x76F988DA, 0xE2E2C38E, 0xC5D53D8D, 0xAA47C347);
  }

  lemma Rounds24(m: Block)
    requires At(m, 24, State(0xC5D53D8D, 0xA7A3623F, 0xC2606D6D, 0x9DC68B63,
                           0xAA47C347, 0x49F5114A, 0xE1257970, 0x8ADA8930))
    requires FourConstants(24, 0x983E5152, 0xA831C66D, 0xB00327C8, 0xBF597FC7)
    requires FourConstants(28, 0xC6E00BF3, 0xD5A79147, 0x06CA6351, 0x14292967)
    requires FourWords(m, 24, 0xC8215C1A, 0xB73679A2, 0xE5BC3909, 0x32663C5B)
    requires FourWords(m, 28, 0x9D209D67, 0xEC8726CB, 0x702138A4, 0xD3B7973B)
    ensures At(m, 32, State(0x73B33BF5, 0xEA992A22, 0xA0060B30, 0x363482C9,
                           0xBA591112, 0x0109AB3A, 0xADE79437, 0x6112A3B7))
  {
    hide Schedule, At, K;
    var s := State(0xC5D53D8D, 0xA7A3623F, 0xC2606D6D, 0x9DC68B63,
                           0xAA47C347, 0x49F5114A, 0xE1257970, 0x8ADA8930);
    s := NextRound(m, 24, s, 0x983E5152, 0xC8215C1A, 0x1C2C2838, 0x2823EF91);
    s := NextRound(m, 25, s, 0xA831C66D, 0xB73679A2, 0xCDE8037D, 0x14383D8E);
    s := NextRound(m, 26, s, 0xB00327C8, 0xE5BC3909, 0xB62EC4BC, 0xC74C6516);
    s := NextRound(m, 27, s, 0xBF597FC7, 0x32663C5B, 0x77D37528, 0xEDFFBFF8);
    s := NextRound(m, 28, s, 0xC6E00BF3, 0x9D209D67, 0x363482C9, 0x6112A3B7);
    s := NextRound(m, 29, s, 0xD5A79147, 0xEC8726CB, 0xA0060B30, 0xADE79437);
    s := NextRound(m, 30, s, 0x06CA6351, 0x702138A4, 0xEA992A22, 0x0109AB3A);
    s := NextRound(m, 31, s, 0x14292967, 0xD3B7973B, 0x73B33BF5, 0xBA591112);
  }

  lemma Rounds32(m: Block)
    requires At(m, 32, State(0x73B33BF5, 0xEA992A22, 0xA0060B30, 0x363482C9,
                           0xBA591112, 0x0109AB3A, 0xADE79437, 0x6112A3B7))
    requires FourConstants(32, 0x27B70A85, 0x2E1B2138, 0x4D2C6DFC, 0x53380D13)
    requires FourConstants(36, 0x650A7354, 0x766A0ABB, 0x81C2C92E, 0x92722C85)
    requires FourWords(m, 32, 0x93F5997F, 0x3B68BA73, 0xAFF4FFC1, 0xF10A5C62)
    requires FourWords(m, 36, 0x0A8B3996, 0x72AF830A, 0x9409E33E, 0x24641522)
    ensures At(m, 40, State(0x79EA687A, 0x6DC57A8A, 0x34DF1604, 0x41A65CB1,
                           0x1EFBC0A0, 0xF0781BC8, 0xA507A53D, 0x0772A26B))
  {
    hide Schedule, At, K;
    var s := State(0x73B33BF5, 0xEA992A22, 0xA0060B30, 0x363482C9,
                           0xBA591112, 0x0109AB3A, 0xADE79437, 0x6112A3B7);
    s := NextRound(m, 32, s, 0x27B70A85, 0x93F5997F, 0x98E12507, 0x9CD9F5F6);
    s := NextRound(m, 33, s, 0x2E1B2138, 0x3B68BA73, 0xFE604DF5, 0x59249DD3);
    s := NextRound(m, 34, s, 0x4D2C6DFC, 0xAFF4FFC1, 0xA9A7738C, 0x085F3833);
    s := NextRound(m, 35, s, 0x53380D13, 0xF10A5C62, 0x65A0CFE4, 0xF4B002D6);
    s := NextRound(m, 36, s, 0x650A7354, 0x0A8B3996, 0x41A65CB1, 0x0772A26B);
    s := NextRound(m, 37, s, 0x766A0ABB, 0x72AF830A, 0x34DF1604, 0xA507A53D);
    s := NextRound(m, 38, s, 0x81C2C92E, 0x9409E33E, 0x6DC57A8A, 0xF0781BC8);
    s := NextRound(m, 39, s, 0x92722C85, 0x24641522, 0x79EA687A, 0x1EFBC0A0);
  }

  lemma Rounds40(m: Block)
    requires At(m, 40, State(0x79EA687A, 0x6DC57A8A, 0x34DF1604, 0x41A65CB1,
                           0x1EFBC0A0, 0xF0781BC8, 0xA507A53D, 0x0772A26B))
    requires FourConstants(40, 0xA2BFE8A1, 0xA81A664B, 0xC24B8B70, 0xC76C51A3)
    requires FourConstants(44, 0xD192E819, 0xD6990624, 0xF40E3585, 0x106AA070)
    requires FourWords(m, 40, 0x9F47BF94, 0xF0A64F5A, 0x3E246A79, 0x27333BA3)
    requires FourWords(m, 44, 0x0C4763F2, 0x840ABF27, 0x7A290D5D, 0x065C43DA)
    ensures At(m, 48, State(0x4172328D, 0xA14C14B0, 0x72AB4B91, 0x26628815,
                           0xFECF0BC6, 0xD57B94A9, 0xB7755DA1, 0xA80F11F0))
  {
    hide Schedule, At, K;
    var s := State(0x79EA687A, 0x6DC57A8A, 0x34DF1604, 0x41A65CB1,
                           0x1EFBC0A0, 0xF0781BC8, 0xA507A53D, 0x0772A26B);
    s := NextRound(m, 40, s, 0xA2BFE8A1, 0x9F47BF94, 0xD6670766, 0x26352D63);
    s := NextRound(m, 41, s, 0xA81A664B, 0xF0A64F5A, 0xDF46652F, 0x838B2711);
    s := NextRound(m, 42, s, 0xC24B8B70, 0x3E246A79, 0x17AA0DFE, 0xDECD4715);
    s := NextRound(m, 43, s, 0xC76C51A3, 0x27333BA3, 0x9D4BAF93, 0xFDA24C2E);
    s := NextRound(m, 44, s, 0xD192E819, 0x0C4763F2, 0x26628815, 0xA80F11F0);
    s := NextRound(m, 45, s, 0xD6990624, 0x840ABF27, 0x72AB4B91, 0xB7755DA1);
    s := NextRound(m, 46, s, 0xF40E3585, 0x7A290D5D, 0xA14C14B0, 0xD57B94A9);
    s := NextRound(m, 47, s, 0x106AA070, 0x065C43DA, 0x4172328D, 0xFECF0BC6);
  }

  lemma Rounds48(m: Block)
    requires At(m, 48, State(0x4172328D, 0xA14C14B0, 0x72AB4B91, 0x26628815,
                           0xFECF0BC6, 0xD57B94A9, 0xB7755DA1, 0xA80F11F0))
    requires FourConstants(48, 0x19A4C116, 0x1E376C08, 0x2748774C, 0x34B0BCB5)
    requires FourConstants(52, 0x391C0CB3, 0x4ED8AA4A, 0x5B9CCA4F, 0x682E6FF3)
    requires FourWords(m, 48, 0xFB3E89CB, 0xCC7617DB, 0xB9E66C34, 0xA9993667)
    requires FourWords(m, 52, 0x84BADEDD, 0xC21462BC, 0x1487472C, 0xB20F7A99)
    ensures At(m, 56, State(0x38CC9913, 0x3EC45CDB, 0xF5702FDB, 0x101FD28F,
                           0x54CB266B, 0xE50E1B4F, 0x9F4787C3, 0x529E7D00))
  {
    hide Schedule, At, K;
    var s := State(0x4172328D, 0xA14C14B0, 0x72AB4B91, 0x26628815,
                           0xFECF0BC6, 0xD57B94A9, 0xB7755DA1, 0xA80F11F0);
    s := NextRound(m, 48, s, 0x19A4C116, 0xFB3E89CB, 0x05757CEB, 0xBD714038);
    s := NextRound(m, 49, s, 0x1E376C08, 0xCC7617DB, 0xF11BFAA8, 0x6E5C390C);
    s := NextRound(m, 50, s, 0x2748774C, 0xB9E66C34, 0x7A0508A1, 0x52F1CCF7);
    s := NextRound(m, 51, s, 0x34B0BCB5, 0xA9993667, 0x886E7A22, 0x49231C1E);
    s := NextRound(m, 52, s, 0x391C0CB3, 0x84BADEDD, 0x101FD28F, 0x529E7D00);
    s := NextRound(m, 53, s, 0x4ED8AA4A, 0xC21462BC, 0xF5702FDB, 0x9F4787C3);
    s := NextRound(m, 54, s, 0x5B9CCA4F, 0x1487472C, 0x3EC45CDB, 0xE50E1B4F);
    s := NextRound(m, 55, s, 0x682E6FF3, 0xB20F7A99, 0x38CC9913, 0x54CB266B);
  }

  lemma Rounds56(m: Block)
    requires At(m, 56, State(0x38CC9913, 0x3EC45CDB, 0xF5702FDB, 0x101FD28F,
                           0x54CB266B, 0xE50E1B4F, 0x9F4787C3, 0x529E7D00))
    requires FourConstants(56, 0x748F82EE, 0x78A5636F, 0x84C87814, 0x8CC70208)
    requires FourConstants(60, 0x90BEFFFA, 0xA4506CEB, 0xBEF9A3F7, 0xC67178F2)
    requires FourWords(m, 56, 0xEF57B9CD, 0xEBE6B238, 0x9FE3095E, 0x78BC8D4B)
    requires FourWords(m, 60, 0xA43FCF15, 0x668B2FF8, 0xEEABA2CC, 0x12B1EDEB)
    ensures At(m, 64, State(0x506E3058, 0xD39A2165, 0x04D24D6C, 0xB85E2CE9,
                           0x5EF50F24, 0xFB121210, 0x948D25B6, 0x961F4894))
  {
    hide Schedule, At, K;
    var s := State(0x38CC9913, 0x3EC45CDB, 0xF5702FDB, 0x101FD28F,
                           0x54CB266B, 0xE50E1B4F, 0x9F4787C3, 0x529E7D00);
    s := NextRound(m, 56, s, 0x748F82EE, 0xEF57B9CD, 0xFCD1887B, 0x9B5E906C);
    s := NextRound(m, 57, s, 0x78A5636F, 0xEBE6B238, 0xC062D46F, 0x7E44008E);
    s := NextRound(m, 58, s, 0x84C87814, 0x9FE3095E, 0xFFB70472, 0x6D83BFC6);
    s := NextRound(m, 59, s, 0x8CC70208, 0x78BC8D4B, 0xB6AE8FFF, 0xB21BAD3D);
    s := NextRound(m, 60, s, 0x90BEFFFA, 0xA43FCF15, 0xB85E2CE9, 0x961F4894);
    s := NextRound(m, 61, s, 0xA4506CEB, 0x668B2FF8, 0x04D24D6C, 0x948D25B6);
    s := NextRound(m, 62, s, 0xBEF9A3F7, 0xEEABA2CC, 0xD39A2165, 0xFB121210);
    s := NextRound(m, 63, s, 0xC67178F2, 0x12B1EDEB, 0x506E3058, 0x5EF50F24);
  }

  lemma Constants0()
    ensures FourConstants(0, 0x428A2F98, 0x71374491, 0xB5C0FBCF, 0xE9B5DBA5)
    ensures FourConstants(4, 0x3956C25B, 0x59F111F1, 0x923F82A4, 0xAB1C5ED5)
  {
  }

  lemma Constants8()
    ensures FourConstants(8, 0xD807AA98, 0x12835B01, 0x243185BE, 0x550C7DC3)
    ensures FourConstants(12, 0x72BE5D74, 0x80DEB1FE, 0x9BDC06A7, 0xC19BF174)
  {
  }

  lemma Constants16()
    ensures FourConstants(16, 0xE49B69C1, 0xEFBE4786, 0x0FC19DC6, 0x240CA1CC)
    ensures FourConstants(20, 0x2DE92C6F, 0x4A7484AA, 0x5CB0A9DC, 0x76F988DA)
  {
  }

  lemma Constants24()
    ensures FourConstants(24, 0x983E5152, 0xA831C66D, 0xB00327C8, 0xBF597FC7)
    ensures FourConstants(28, 0xC6E00BF3, 0xD5A79147, 0x06CA6351, 0x14292967)
  {
  }

  lemma Constants32()
    ensures FourConstants(32, 0x27B70A85, 0x2E1B2138, 0x4D2C6DFC, 0x53380D13)
    ensures FourConstants(36, 0x650A7354, 0x766A0ABB, 0x81C2C92E, 0x92722C85)
  {
  }

  lemma Constants40()
    ensures FourConstants(40, 0xA2BFE8A1, 0xA81A664B, 0xC24B8B70, 0xC76C51A3)
    ensures FourConstants(44, 0xD192E819, 0xD6990624, 0xF40E3585, 0x106AA070)
  {
  }

  lemma Constants48()
    ensures FourConstants(48, 0x19A4C116, 0x1E376C08, 0x2748774C, 0x34B0BCB5)
    ensures FourConstants(52, 0x391C0CB3, 0x4ED8AA4A, 0x5B9CCA4F, 0x682E6FF3)
  {
  }

  lemma Constants56()
    ensures FourConstants(56, 0x748F82EE, 0x78A5636F, 0x84C87814, 0x8CC70208)
    ensures FourConstants(60, 0x90BEFFFA, 0xA4506CEB, 0xBEF9A3F7, 0xC67178F2)
  {
  }

  /** The message, the 1 bit, 52 zeros and the length of 24 bits. */
  lemma PaddedAbc()
    ensures Pad(ABC) == ABC + [0x80] + Zeros(52) + [0, 0, 0, 0, 0, 0, 0, 0x18]
  {
    assert PadZeros(3) == 52 && BitCount(3) == 24;
    assert BytesOf(24, 8) == [0, 0, 0, 0, 0, 0, 0, 0x18] by { LengthBytes(); }
  }

  lemma LengthBytes()
    ensures BytesOf(24, 8) == [0, 0, 0, 0, 0, 0, 0, 0x18]
  {
    assert BytesOf(0, 0) == [] && BytesOf(0, 1) == [0] && BytesOf(0, 2) == [0, 0] && BytesOf(0, 3) == [0, 0, 0];
    assert BytesOf(0, 4) == [0, 0, 0, 0] && BytesOf(0, 5) == [0, 0, 0, 0, 0];
    assert BytesOf(0, 6) == [0, 0, 0, 0, 0, 0] && BytesOf(0, 7) == [0, 0, 0, 0, 0, 0, 0];
  }

  lemma BlockWords(m: Block)
    requires m == ABC + [0x80] + Zeros(52) + [0, 0, 0, 0, 0, 0, 0, 0x18]
    ensures FourWords(m, 0, 0x61626380, 0, 0, 0) && FourWords(m, 4, 0, 0, 0, 0)
    ensures FourWords(m, 8, 0, 0, 0, 0) && FourWords(m, 12, 0, 0, 0, 0x00000018)
  {
    assert forall i :: 4 <= i < 63 ==> m[i] == 0;
    FirstWords(m, 0);
    FirstWords(m, 15);
    hide Schedule;
    forall t | 1 <= t < 15 ensures Schedule(m, t) == 0 {
      FirstWords(m, t);
    }
  }

  /** All 64 rounds. */
  lemma {:induction false} AllRounds(m: Block)
    requires m == ABC + [0x80] + Zeros(52) + [0, 0, 0, 0, 0, 0, 0, 0x18]
    ensures Rounds(m, H0, 64) == State(0x506E3058, 0xD39A2165, 0x04D24D6C, 0xB85E2CE9,
                           0x5EF50F24, 0xFB121210, 0x948D25B6, 0x961F4894)
  {
    hide *;
    BlockWords(m);

    Words16(m);
    Words24(m);
    Words32(m);
    Words40(m);
    Words48(m);
    Words56(m);
    FirstRounds(m);
    Constants0();
    Rounds0(m);
    Constants8();
    Rounds8(m);
    Constants16();
    Rounds16(m);
    Constants24();
    Rounds24(m);
    Constants32();
    Rounds32(m);
    Constants40();
    Rounds40(m);
    Constants48();
    Rounds48(m);
    Constants56();
    Rounds56(m);
    LastRounds(m);
  }

  lemma FirstRounds(m: Block)
    ensures At(m, 0, H0)
  {
    FirstRound(m, H0);
  }

  lemma {:induction false} LastRounds(m: Block)
    requires At(m, 64, State(0x506E3058, 0xD39A2165, 0x04D24D6C, 0xB85E2CE9,
                           0x5EF50F24, 0xFB121210, 0x948D25B6, 0x961F4894))
    ensures Rounds(m, H0, 64) == State(0x506E3058, 0xD39A2165, 0x04D24D6C, 0xB85E2CE9,
                           0x5EF50F24, 0xFB121210, 0x948D25B6, 0x961F4894)
  {
  }

  /** The digest of the letters a, b, c. */
  lemma KnownAnswer()
    ensures Sha256.Sha256(ABC) ==
            [0xBA, 0x78, 0x16, 0xBF] + [0x8F, 0x01, 0xCF, 0xEA] + [0x41, 0x41, 0x40, 0xDE] + [0x5D, 0xAE, 0x22, 0x23]
            + ([0xB0, 0x03, 0x61, 0xA3] + [0x96, 0x17, 0x7A, 0x9C] + [0xB4, 0x10, 0xFF, 0x61]
               + [0xF2, 0x00, 0x15, 0xAD])
  {
    var m := Pad(ABC);
    PaddedAbc();
    AllRounds(m);
    OneBlock(m);
    DigestParts(HashBlocks(m));
    LastBytes();
    hide Digest, Rounds;
  }

  lemma {:induction false} OneBlock(m: Block)
    requires Rounds(m, H0, 64) == State(0x506E3058, 0xD39A2165, 0x04D24D6C, 0xB85E2CE9,
                           0x5EF50F24, 0xFB121210, 0x948D25B6, 0x961F4894)
    ensures HashBlocks(m) == State(0xBA7816BF, 0x8F01CFEA, 0x414140DE, 0x5DAE2223,
                           0xB00361A3, 0x96177A9C, 0xB410FF61, 0xF20015AD)
  {
    hide Rounds;
    assert m[..0] == [] && m[0..] == m;
    assert HashBlocks([]) == H0;
  }

  /** A digest is its eight words, most significant byte first. */
  lemma DigestParts(s: State)
    ensures Digest(s) == WordBytes(s.a) + WordBytes(s.b) + WordBytes(s.c) + WordBytes(s.d)
                         + (WordBytes(s.e) + WordBytes(s.f) + WordBytes(s.g) + WordBytes(s.h))
  {
    hide WordBytes, WordsBytes;
    var r := [s.a, s.b, s.c, s.d];
    NoBytes();
    FourParts([], s.a, s.b, s.c, s.d);
    assert [] + r == r;
    FourParts(r, s.e, s.f, s.g, s.h);
    assert r + [s.e, s.f, s.g, s.h] == [s.a, s.b, s.c, s.d, s.e, s.f, s.g, s.h];
    var d := WordBytes(s.a) + WordBytes(s.b) + WordBytes(s.c) + WordBytes(s.d);
    assert [] + d == d;
  }

  lemma {:induction false} FourParts(r: seq<word>, a: word, b: word, c: word, d: word)
    ensures WordsBytes(r + [a, b, c, d]) == WordsBytes(r) + (WordBytes(a) + WordBytes(b) + WordBytes(c) + WordBytes(d))
  {
    hide WordBytes, WordsBytes;
    NextBytes(r, a);
    NextBytes(r + [a], b);
    NextBytes(r + [a] + [b], c);
    NextBytes(r + [a] + [b] + [c], d);
    assert r + [a] + [b] + [c] + [d] == r + [a, b, c, d];
    Gather(WordsBytes(r), WordBytes(a), WordBytes(b), WordBytes(c), WordBytes(d));
  }

  lemma Gather(r: seq<byte>, a: seq<byte>, b: seq<byte>, c: seq<byte>, d: seq<byte>)
    ensures r + a + b + c + d == r + (a + b + c + d)
  {
  }

  lemma {:induction false} NextBytes(r: seq<word>, w: word)
    ensures WordsBytes(r + [w]) == WordsBytes(r) + WordBytes(w)
  {
    hide WordBytes;
    assert (r + [w])[..|r|] == r;
  }

  lemma LastBytes()
    ensures WordBytes(0xBA7816BF) == [0xBA, 0x78, 0x16, 0xBF]
    ensures WordBytes(0x8F01CFEA) == [0x8F, 0x01, 0xCF, 0xEA]
    ensures WordBytes(0x414140DE) == [0x41, 0x41, 0x40, 0xDE]
    ensures WordBytes(0x5DAE2223) == [0x5D, 0xAE, 0x22, 0x23]
    ensures WordBytes(0xB00361A3) == [0xB0, 0x03, 0x61, 0xA3]
    ensures WordBytes(0x96177A9C) == [0x96, 0x17, 0x7A, 0x9C]
    ensures WordBytes(0xB410FF61) == [0xB4, 0x10, 0xFF, 0x61]
    ensures WordBytes(0xF20015AD) == [0xF2, 0x00, 0x15, 0xAD]
  {
  }

  lemma NoBytes()
    ensures WordsBytes([]) == []
  {
  }
}
